/** The text by which a gateway hands its clients to its successor. */
module HandOver {
  import opened CText
  import opened ClientList

  const MAX_BUF := 4096

  // ----- What the successor makes of a line -----

  /** An assignment by key; any other key is reported and ignored. */
  function Assign(c: Client, key: string, value: string): (client: Client) {
    if key == "ip" then c.(ip := value)
    else if key == "mac" then c.(mac := value)
    else if key == "token" then c.(token := value)
    else if key == "fw_connection_state" then c.(state := Atoi(value))
    else if key == "fd" then c.(fd := Atoi(value))
    else if key == "counters_incoming" then
      var n := AsUnsigned(Atol(value));
      c.(counters := c.counters.(incomingHistory := n, incoming := n, incomingDelta := 0))
    else if key == "counters_outgoing" then
      var n := AsUnsigned(Atol(value));
      c.(counters := c.counters.(outgoingHistory := n, outgoing := n, outgoingDelta := 0))
    else if key == "counters_last_updated" then c.(counters := c.counters.(lastUpdated := Atol(value)))
    else c
  }

  /** A long as an unsigned one. */
  function AsUnsigned(n: int): (u: nat)
    ensures 0 <= n <= ULLONG_MAX ==> u == n
    ensures -ULLONG_MAX <= n < 0 ==> u == n + ULLONG_MAX + 1
  {
    n % 0x1_0000_0000_0000_0000
  }

  /** The second of the parts between equals signs; later ones are dropped. */
  function ValuePart(s: string): (text: string) { s[..Find(s, '=')] }

  function Fielded(c: Client, token: string): (client: Client) {
    var k := Find(token, '=');
    if k == |token| then c else Assign(c, token[..k], ValuePart(token[k + 1..]))
  }

  /** The fields behind the command. */
  function Fields(c: Client, s: string): (client: Client)
    decreases |s|
  {
    var e := Find(s, '|');
    var d := Fielded(c, s[..e]);
    if e == |s| then d else Fields(d, s[e + 1..])
  }

  /** A pointer into the line buffer. */
  datatype Ptr = Null | To(at: nat)

  /** The line buffer once the command has been cut off. */
  function FirstCut(line: string): (r: string)
    requires |line| < MAX_BUF
    ensures |r| == MAX_BUF
  {
    var e := Find(line, '|');
    (if e < |line| then line[e := '\0'] else line) + Zeroes(MAX_BUF - |line|)
  }

  function StaleText(line: string, off: nat): (text: string)
    requires |line| < MAX_BUF
  {
    if off < MAX_BUF then CStr(FirstCut(line)[off..]) else ""
  }

  /** The new client when the command has been read: key and value still point
      to where the previous line left them. */
  function FirstClient(line: string, key: Ptr, value: Ptr): (client: Client)
    requires |line| < MAX_BUF
  {
    if key.To? && value.To? then Assign(Cleared(), StaleText(line, key.at), StaleText(line, value.at)) else Cleared()
  }

  datatype Got = NoClient | Got(c: Client)

  function LineClient(line: string, key: Ptr, value: Ptr): (got: Got)
    requires |line| < MAX_BUF
  {
    var e := Find(line, '|');
    if line[..e] != "CLIENT" then NoClient
    else
      var first := FirstClient(line, key, value);
      Got(if e == |line| then first else Fields(first, line[e + 1..]))
  }

  /** Where key and value point after the last field of s, which starts at base. */
  function FieldPtrs(s: string, base: nat): (r: (Ptr, Ptr))
    decreases |s|
  {
    var e := Find(s, '|');
    if e < |s| then FieldPtrs(s[e + 1..], base + e + 1)
    else
      var k := Find(s, '=');
      (To(base), if k < |s| then To(base + k + 1) else Null)
  }

  function LinePtrs(line: string, key: Ptr, value: Ptr): (Ptr, Ptr) {
    var e := Find(line, '|');
    if e == |line| then (key, value) else FieldPtrs(line[e + 1..], e + 1)
  }

  predicate IsEnd(c: char) { c == '\n' || c == '\0' }

  /** Every line fits the buffer with its terminator. */
  predicate Fits(stream: string, line: string)
    decreases |stream|
  {
    |line| < MAX_BUF && (stream == "" || Fits(stream[1..], if IsEnd(stream[0]) then "" else line + [stream[0]]))
  }

  /** The clients after the stream, the last one received first; line is what
      has been read of the current line. */
  function Received(stream: string, line: string, key: Ptr, value: Ptr, got: seq<Client>): (r: seq<Client>)
    requires Fits(stream, line)
    decreases |stream|
  {
    if stream == "" then got
    else if IsEnd(stream[0]) then
      var p := LinePtrs(line, key, value);
      var one := LineClient(line, key, value);
      Received(stream[1..], "", p.0, p.1, if one.Got? then [one.c] + got else got)
    else Received(stream[1..], line + [stream[0]], key, value, got)
  }

  // ----- What the running gateway prints -----

  function Join(fs: seq<(string, string)>): (text: string) {
    if fs == [] then ""
    else fs[0].0 + "=" + fs[0].1 + if |fs| == 1 then "" else "|" + Join(fs[1..])
  }

  /** The fields in the order of the format. */
  function FieldsOf(c: Client): (fs: seq<(string, string)>)
    ensures |fs| == 8
  {
    [("ip", c.ip), ("mac", c.mac), ("token", c.token),
     ("fw_connection_state", Decimal(c.state % 0x1_0000_0000)), ("fd", SignedDecimal(c.fd)),
     ("counters_incoming", Decimal(c.counters.incoming)), ("counters_outgoing", Decimal(c.counters.outgoing)),
     ("counters_last_updated", Decimal(AsUnsigned(c.counters.lastUpdated)))]
  }

  function Line(c: Client): (text: string) { "CLIENT|" + Join(FieldsOf(c)) }

  /** The format, spelled out. */
  lemma LineIs(c: Client)
    ensures Line(c)
         == "CLIENT|ip=" + c.ip
            + ("|mac=" + c.mac
            + ("|token=" + c.token
            + ("|fw_connection_state=" + Decimal(c.state % 0x1_0000_0000)
            + ("|fd=" + SignedDecimal(c.fd)
            + ("|counters_incoming=" + Decimal(c.counters.incoming)
            + ("|counters_outgoing=" + Decimal(c.counters.outgoing)
            + ("|counters_last_updated=" + Decimal(c.counters.lastUpdated % 0x1_0000_0000_0000_0000))))))))
  {
    hide Decimal, SignedDecimal, Join;
    var fs := FieldsOf(c);
    assert fs[0..] == fs;
    BarJoin(fs, 0, "|ip=");
    BarJoin(fs, 1, "|mac=");
    BarJoin(fs, 2, "|token=");
    BarJoin(fs, 3, "|fw_connection_state=");
    NumbersJoined(c);
    CommandJoined(Join(fs), c.ip, BarRest(fs, 1));
  }

  lemma NumbersJoined(c: Client)
    ensures BarRest(FieldsOf(c), 4)
         == "|fd=" + SignedDecimal(c.fd)
            + ("|counters_incoming=" + Decimal(c.counters.incoming)
            + ("|counters_outgoing=" + Decimal(c.counters.outgoing)
            + ("|counters_last_updated=" + Decimal(c.counters.lastUpdated % 0x1_0000_0000_0000_0000))))
  {
    hide Decimal, SignedDecimal, BarRest;
    var fs := FieldsOf(c);
    BarJoin(fs, 4, "|fd=");
    BarJoin(fs, 5, "|counters_incoming=");
    BarJoin(fs, 6, "|counters_outgoing=");
    BarJoin(fs, 7, "|counters_last_updated=");
  }

  function BarRest(fs: seq<(string, string)>, i: nat): (r: string)
    requires i <= |fs|
  {
    if i == |fs| then "" else "|" + Join(fs[i..])
  }

  lemma BarJoin(fs: seq<(string, string)>, i: nat, key: string)
    requires i < |fs| && key == "|" + fs[i].0 + "="
    ensures BarRest(fs, i) == key + fs[i].1 + BarRest(fs, i + 1)
    ensures i + 1 == |fs| ==> BarRest(fs, i + 1) == ""
  {
    hide Join, TokenOf;
    var t := TokenOf(fs[i]);
    JoinIs(fs[i..]);
    assert fs[i..][1..] == fs[i + 1..];
    BarToken(fs[i], key);
    assert "|" + (t + ("|" + Join(fs[i + 1..]))) == "|" + t + ("|" + Join(fs[i + 1..]));
    assert "|" + t + "" == "|" + t;
  }

  lemma BarToken(f: (string, string), key: string)
    requires key == "|" + f.0 + "="
    ensures "|" + TokenOf(f) == key + f.1
  {
    assert "|" + (f.0 + "=" + f.1) == "|" + f.0 + "=" + f.1;
  }

  lemma CommandJoined(joined: string, ip: string, rest: string)
    requires "|" + joined == "|ip=" + ip + rest
    ensures "CLIENT|" + joined == "CLIENT|ip=" + ip + rest
  {
    assert "CLIENT|" + joined == "CLIENT" + ("|" + joined);
    assert "CLIENT" + "|ip=" == "CLIENT|ip=";
  }

  function PrintedAll(cs: seq<Client>): (text: string) {
    if cs == [] then "" else Line(cs[0]) + "\n" + PrintedAll(cs[1..])
  }

  // ----- The round trip -----

  predicate CleanText(s: string) {
    forall c <- s :: c != '|' && c != '\n' && c != '\0'
  }

  /** The values of the C types. */
  predicate InRange(c: Client) {
    && -0x8000_0000 <= c.state < 0x8000_0000 && -0x8000_0000 <= c.fd < 0x8000_0000
    && c.counters.incoming <= ULLONG_MAX && c.counters.outgoing <= ULLONG_MAX
    && LONG_MIN <= c.counters.lastUpdated <= LONG_MAX
  }

  predicate Clean(c: Client) {
    InRange(c) && CleanText(c.ip) && CleanText(c.mac) && CleanText(c.token) && |Line(c)| < MAX_BUF
  }

  /** What arrives: texts up to an equals sign, numbers up to LONG_MAX. */
  function Handed(c: Client): (client: Client) {
    var incoming, outgoing := Saturate(c.counters.incoming), Saturate(c.counters.outgoing);
    Client(ValuePart(c.ip), ValuePart(c.mac), ValuePart(c.token), "", "", c.state, 0, 0, 0, c.fd,
           Counters(incoming, outgoing, incoming, outgoing, 0, 0, 0, Saturate(AsUnsigned(c.counters.lastUpdated))))
  }

  /** The client arrives whole exactly when its texts have no equals sign, its
      totals are below 2^63 and its time stamp is not negative. */
  lemma HandedExactly(c: Client)
    requires InRange(c)
    ensures var h := Handed(c);
            (h.ip == c.ip && h.mac == c.mac && h.token == c.token && h.state == c.state && h.fd == c.fd
             && h.counters.incoming == c.counters.incoming && h.counters.outgoing == c.counters.outgoing
             && h.counters.lastUpdated == c.counters.lastUpdated)
            <==> ('=' !in c.ip && '=' !in c.mac && '=' !in c.token
                  && c.counters.incoming <= LONG_MAX && c.counters.outgoing <= LONG_MAX && c.counters.lastUpdated >= 0)
  {
    WholeValue(c.ip);
    WholeValue(c.mac);
    WholeValue(c.token);
  }

  lemma WholeValue(s: string)
    ensures ValuePart(s) == s <==> '=' !in s
  {
    var k := Find(s, '=');
    if k == |s| {
      assert s[..k] == s;
      assert forall j :: 0 <= j < |s| ==> s[j] != '=';
    } else {
      assert s[k] in s && |ValuePart(s)| < |s|;
    }
  }

  /** Keys that nothing is assigned for. */
  predicate NoKey(k: string) {
    k == "" || IsDigit(k[|k| - 1]) || 'A' <= k[0] <= 'Z'
  }

  lemma NoKeyIgnored(c: Client, key: string, value: string)
    requires NoKey(key)
    ensures Assign(c, key, value) == c
  {
    hide Atol;
  }

  lemma CutLine(line: string)
    requires 7 < |line| < MAX_BUF && line[..7] == "CLIENT|"
    ensures FirstCut(line) == "CLIENT" + ("\0" + (line[7..] + Zeroes(MAX_BUF - |line|)))
  {
    hide Find, Zeroes;
    assert forall j :: 0 <= j < 7 ==> line[j] == line[..7][j];
    FindIs(line, '|', 6);
    assert line[6 := '\0'] == "CLIENT" + ("\0" + line[7..]);
  }

  lemma CommandTail(off: nat, rest: string)
    requires off <= 6
    ensures NoKey(CStr(("CLIENT" + ("\0" + rest))[off..]))
  {
    var t := "CLIENT"[off..];
    assert ("CLIENT" + ("\0" + rest))[off..] == t + ("\0" + rest);
    assert '\0' !in t;
    CStrOf(t, "\0" + rest);
  }

  lemma LineTail(line: string, z: string, off: nat)
    requires 7 <= off <= |line| && IsDigit(line[|line| - 1]) && '\0' !in line && z != "" && z[0] == '\0'
    ensures NoKey(CStr(line[off..] + z))
  {
    var t := line[off..];
    assert '\0' !in t;
    CStrOf(t, z);
  }

  lemma ZeroTail(line: string, n: nat, off: nat)
    requires |line| < off < |line| + n
    ensures CStr((line + Zeroes(n))[off..]) == ""
  {
  }

  /** A key left over from the previous line reads as no key at all on a line
      that ends with a digit. */
  lemma StaleIsNoKey(line: string, off: nat)
    requires 7 < |line| < MAX_BUF && line[..7] == "CLIENT|" && IsDigit(line[|line| - 1]) && '\0' !in line
    ensures NoKey(StaleText(line, off))
  {
    hide Find, Zeroes, FirstCut, NoKey, CStr;
    var z := Zeroes(MAX_BUF - |line|);
    var buffer := FirstCut(line);
    CutLine(line);
    if off <= 6 {
      CommandTail(off, line[7..] + z);
    } else if off <= |line| {
      assert buffer[off..] == line[off..] + z;
      LineTail(line, z, off);
    } else if off < MAX_BUF {
      ZeroTail(line, MAX_BUF - |line|, off);
      assert buffer[off..] == (line + z)[off..];
      EmptyIsNoKey();
    } else {
      EmptyIsNoKey();
    }
  }

  /** On other lines it can matter: the second line has no field at all, but the
      pointers of the first one read it as the address "p". */
  lemma StaleMatters()
    ensures LinePtrs("CLIENT||=", Null, Null) == (To(8), To(9))
    ensures LineClient("CLIENT|xip", To(8), To(9)) == Got(Cleared().(ip := "p"))
  {
    hide Find, CStr, Zeroes;
    var first, second := "CLIENT||=", "CLIENT|xip";
    FindIs(first, '|', 6);
    FindIs(second, '|', 6);
    assert first[7..] == "|=" && second[7..] == "xip" && second[..6] == "CLIENT";
    FindIs("|=", '|', 0);
    assert "|="[1..] == "=";
    FindIs("=", '|', 1);
    FindIs("=", '=', 0);
    FindIs("xip", '|', 3);
    FindIs("xip", '=', 3);
    assert "xip"[..3] == "xip";
    var z := Zeroes(MAX_BUF - 10);
    CutLine(second);
    var b := FirstCut(second);
    assert b[8..] == "ip" + z && b[9..] == "p" + z;
    CStrOf("ip", z);
    CStrOf("p", z);
  }

  lemma EmptyIsNoKey()
    ensures NoKey("")
  {
  }

  predicate Plain(s: string) {
    forall i :: 0 <= i < |s| ==> s[i] != '|' && s[i] != '=' && s[i] != '\n' && s[i] != '\0'
  }

  predicate CleanFields(fs: seq<(string, string)>) {
    forall i :: 0 <= i < |fs| ==> Plain(fs[i].0) && CleanText(fs[i].1)
  }

  lemma KeysPlain()
    ensures Plain("ip") && Plain("mac") && Plain("token") && Plain("fw_connection_state") && Plain("fd")
    ensures Plain("counters_incoming") && Plain("counters_outgoing") && Plain("counters_last_updated")
  {
  }

  function AssignAll(c: Client, fs: seq<(string, string)>): (client: Client)
    decreases |fs|
  {
    if fs == [] then c else AssignAll(Assign(c, fs[0].0, ValuePart(fs[0].1)), fs[1..])
  }

  function TokenOf(f: (string, string)): (text: string) { f.0 + "=" + f.1 }

  lemma TokenRead(c: Client, f: (string, string))
    requires Plain(f.0) && CleanText(f.1)
    ensures Fielded(c, TokenOf(f)) == Assign(c, f.0, ValuePart(f.1))
    ensures Find(TokenOf(f), '=') == |f.0| && CleanText(TokenOf(f))
  {
    hide Assign, Find, ValuePart;
    var t := TokenOf(f);
    forall j | 0 <= j < |f.0|
      ensures t[j] != '='
    {
      assert t[j] == f.0[j];
    }
    FindIs(t, '=', |f.0|);
    assert t[..|f.0|] == f.0 && t[|f.0| + 1..] == f.1;
  }

  lemma FindBar(t: string, rest: string)
    requires CleanText(t)
    ensures Find(t, '|') == |t| && Find(t + ("|" + rest), '|') == |t|
  {
    hide Find;
    FindNone(t, '|');
    var s := t + ("|" + rest);
    forall j | 0 <= j < |t|
      ensures s[j] != '|'
    {
      assert s[j] == t[j] && t[j] in t;
    }
    FindIs(s, '|', |t|);
  }

  lemma JoinIs(fs: seq<(string, string)>)
    requires fs != []
    ensures Join(fs) == if |fs| == 1 then TokenOf(fs[0]) else TokenOf(fs[0]) + ("|" + Join(fs[1..]))
  {
    hide Join;
    JoinUnfold(fs);
    if |fs| == 1 {
      assert TokenOf(fs[0]) + "" == TokenOf(fs[0]);
    }
  }

  lemma JoinUnfold(fs: seq<(string, string)>)
    requires fs != []
    ensures Join(fs) == fs[0].0 + "=" + fs[0].1 + if |fs| == 1 then "" else "|" + Join(fs[1..])
  {
  }

  lemma {:induction false} FieldsOfJoin(c: Client, fs: seq<(string, string)>)
    requires fs != [] && CleanFields(fs)
    ensures Fields(c, Join(fs)) == AssignAll(c, fs)
    decreases |fs|
  {
    hide Assign, Find, ValuePart, Join, Fielded, TokenOf;
    var t, s := TokenOf(fs[0]), Join(fs);
    JoinIs(fs);
    TokenRead(c, fs[0]);
    if |fs| == 1 {
      FindBar(t, "");
      assert s[..|t|] == t;
    } else {
      var rest := Join(fs[1..]);
      FindBar(t, rest);
      assert s[..|t|] == t && s[|t| + 1..] == rest;
      FieldsOfJoin(Assign(c, fs[0].0, ValuePart(fs[0].1)), fs[1..]);
    }
  }

  lemma AssignAllCons(c: Client, f: (string, string), fs: seq<(string, string)>)
    ensures AssignAll(c, [f] + fs) == AssignAll(Assign(c, f.0, ValuePart(f.1)), fs)
  {
    hide Assign, ValuePart;
    assert ([f] + fs)[1..] == fs;
  }

  lemma DecimalPlain(n: nat)
    ensures CleanText(Decimal(n)) && ValuePart(Decimal(n)) == Decimal(n) && Atol(Decimal(n)) == Saturate(n)
  {
    hide Atol, Decimal, Find;
    FindNone(Decimal(n), '=');
    AtolDecimal(n, "");
    assert Decimal(n) + "" == Decimal(n);
  }

  lemma SignedPlain(n: int)
    ensures var s := SignedDecimal(n); CleanText(s) && ValuePart(s) == s && Atol(s) == Saturate(n)
  {
    hide Atol, SignedDecimal, Find;
    FindNone(SignedDecimal(n), '=');
    AtolSigned(n, "");
    assert SignedDecimal(n) + "" == SignedDecimal(n);
  }

  lemma StateBack(state: int)
    requires -0x8000_0000 <= state < 0x8000_0000
    ensures ToInt(Saturate(state % 0x1_0000_0000)) == state
  {
  }

  lemma FieldsClean(c: Client)
    requires CleanText(c.ip) && CleanText(c.mac) && CleanText(c.token)
    ensures CleanFields(FieldsOf(c))
  {
    hide Decimal, SignedDecimal, Plain, CleanText, AsUnsigned;
    KeysPlain();
    DecimalPlain(c.state % 0x1_0000_0000);
    SignedPlain(c.fd);
    DecimalPlain(c.counters.incoming);
    DecimalPlain(c.counters.outgoing);
    DecimalPlain(AsUnsigned(c.counters.lastUpdated));
  }

  lemma AssignFields(c: Client)
    requires InRange(c)
    ensures AssignAll(Cleared(), FieldsOf(c)) == Handed(c)
  {
    hide Decimal, SignedDecimal, ValuePart, Atol, AssignAll;
    var f := FieldsOf(c);
    DecimalPlain(c.state % 0x1_0000_0000);
    StateBack(c.state);
    SignedPlain(c.fd);
    DecimalPlain(c.counters.incoming);
    DecimalPlain(c.counters.outgoing);
    DecimalPlain(AsUnsigned(c.counters.lastUpdated));
    var s7 := [f[7]] + [];
    var s6 := [f[6]] + s7;
    var s5 := [f[5]] + s6;
    var s4 := [f[4]] + s5;
    var s3 := [f[3]] + s4;
    var s2 := [f[2]] + s3;
    var s1 := [f[1]] + s2;
    assert f == [f[0]] + s1;
    var c0 := Cleared();
    AssignAllCons(c0, f[0], s1);
    var c1 := Assign(c0, f[0].0, ValuePart(f[0].1));
    AssignAllCons(c1, f[1], s2);
    var c2 := Assign(c1, f[1].0, ValuePart(f[1].1));
    AssignAllCons(c2, f[2], s3);
    var c3 := Assign(c2, f[2].0, ValuePart(f[2].1));
    AssignAllCons(c3, f[3], s4);
    var c4 := Assign(c3, f[3].0, ValuePart(f[3].1));
    AssignAllCons(c4, f[4], s5);
    var c5 := Assign(c4, f[4].0, ValuePart(f[4].1));
    AssignAllCons(c5, f[5], s6);
    var c6 := Assign(c5, f[5].0, ValuePart(f[5].1));
    AssignAllCons(c6, f[6], s7);
    var c7 := Assign(c6, f[6].0, ValuePart(f[6].1));
    AssignAllCons(c7, f[7], []);
    AssignNone(Assign(c7, f[7].0, ValuePart(f[7].1)));
  }

  lemma AssignNone(c: Client)
    ensures AssignAll(c, []) == c
  {
  }

  predicate OneLine(s: string) { '\n' !in s && '\0' !in s }

  lemma TokenText(f: (string, string))
    requires Plain(f.0) && CleanText(f.1)
    ensures OneLine(TokenOf(f)) && TokenOf(f) != ""
    ensures f.1 != "" ==> TokenOf(f)[|TokenOf(f)| - 1] == f.1[|f.1| - 1]
  {
  }

  /** The fields are one line that ends as its last value does. */
  lemma {:induction false} JoinText(fs: seq<(string, string)>)
    requires fs != [] && CleanFields(fs) && fs[|fs| - 1].1 != ""
    ensures var s, v := Join(fs), fs[|fs| - 1].1;
            s != "" && s[|s| - 1] == v[|v| - 1] && OneLine(s)
    decreases |fs|
  {
    hide Join, Plain, CleanText;
    JoinIs(fs);
    TokenText(fs[0]);
    if |fs| > 1 { JoinText(fs[1..]); }
  }

  lemma LineShape(c: Client)
    requires Clean(c)
    ensures var l := Line(c);
            && 7 < |l| < MAX_BUF && l[..7] == "CLIENT|" && l[7..] == Join(FieldsOf(c))
            && IsDigit(l[|l| - 1]) && OneLine(l)
  {
    hide Join, Decimal, SignedDecimal;
    var fs := FieldsOf(c);
    FieldsClean(c);
    DecimalPlain(AsUnsigned(c.counters.lastUpdated));
    JoinText(fs);
    var v := Decimal(AsUnsigned(c.counters.lastUpdated));
    assert v[|v| - 1] in v;
  }

  /** A printed client is read back, whatever the previous line left behind. */
  lemma LineGot(c: Client, key: Ptr, value: Ptr)
    requires Clean(c)
    ensures LineClient(Line(c), key, value) == Got(Handed(c))
  {
    hide Join, Find, StaleText, Assign, FieldsOf, Handed, Fields;
    var l := Line(c);
    LineShape(c);
    assert forall j :: 0 <= j < 7 ==> l[j] == l[..7][j];
    FindIs(l, '|', 6);
    assert l[..6] == "CLIENT";
    if key.To? && value.To? {
      StaleIsNoKey(l, key.at);
      NoKeyIgnored(Cleared(), StaleText(l, key.at), StaleText(l, value.at));
    }
    FieldsClean(c);
    FieldsOfJoin(Cleared(), FieldsOf(c));
    AssignFields(c);
  }

  lemma {:induction false} ReadText(t: string, rest: string, line: string, key: Ptr, value: Ptr, got: seq<Client>)
    requires OneLine(t) && Fits(rest, line + t)
    ensures Fits(t + rest, line)
    ensures Received(t + rest, line, key, value, got) == Received(rest, line + t, key, value, got)
    decreases |t|
  {
    hide LineClient, LinePtrs;
    if t == "" {
      assert t + rest == rest && line + t == line;
    } else {
      assert t[0] in t;
      assert (t + rest)[0] == t[0] && (t + rest)[1..] == t[1..] + rest;
      assert line + t == line + [t[0]] + t[1..];
      ReadText(t[1..], rest, line + [t[0]], key, value, got);
      FitsLine(rest, line + t);
    }
  }

  lemma FitsLine(stream: string, line: string)
    requires Fits(stream, line)
    ensures |line| < MAX_BUF
  {
  }

  function AllHanded(cs: seq<Client>): (r: seq<Client>)
    ensures |r| == |cs| && forall i :: 0 <= i < |cs| ==> r[i] == Handed(cs[|cs| - 1 - i])
  {
    if cs == [] then [] else AllHanded(cs[1..]) + [Handed(cs[0])]
  }

  lemma EndOfLine(rest: string, line: string, key: Ptr, value: Ptr, got: seq<Client>)
    requires |line| < MAX_BUF && Fits(rest, "") && LineClient(line, key, value).Got?
    ensures Fits("\n" + rest, line)
    ensures var p := LinePtrs(line, key, value);
            Received("\n" + rest, line, key, value, got)
            == Received(rest, "", p.0, p.1, [LineClient(line, key, value).c] + got)
  {
    hide LineClient, LinePtrs;
    assert ("\n" + rest)[1..] == rest;
  }

  lemma OneClient(c: Client, rest: string, key: Ptr, value: Ptr, got: seq<Client>)
    requires Clean(c) && Fits(rest, "")
    ensures var s, p := Line(c) + ("\n" + rest), LinePtrs(Line(c), key, value);
            && Fits(s, "")
            && Received(s, "", key, value, got) == Received(rest, "", p.0, p.1, [Handed(c)] + got)
  {
    hide LineClient, LinePtrs, Clean, Received, Line, Handed, Fits;
    LineShape(c);
    LineGot(c, key, value);
    EndOfLine(rest, Line(c), key, value, got);
    assert "" + Line(c) == Line(c);
    ReadText(Line(c), "\n" + rest, "", key, value, got);
  }

  /** The successor ends up with exactly the handed clients, in reverse order,
      whatever its pointers held before. */
  lemma {:induction false} HandOverRoundTrip(cs: seq<Client>, key: Ptr, value: Ptr, got: seq<Client>)
    requires forall i :: 0 <= i < |cs| ==> Clean(cs[i])
    ensures Fits(PrintedAll(cs), "")
    ensures Received(PrintedAll(cs), "", key, value, got) == AllHanded(cs) + got
    decreases |cs|
  {
    hide *;
    if cs == [] {
      NothingReceived(key, value, got);
    } else {
      var c, rest := cs[0], cs[1..];
      var p := LinePtrs(Line(c), key, value);
      HandOverRoundTrip(rest, p.0, p.1, [Handed(c)] + got);
      OneClient(c, PrintedAll(rest), key, value, got);
      MorePrinted(c, rest, got);
      assert cs == [c] + rest;
    }
  }

  lemma MorePrinted(c: Client, rest: seq<Client>, got: seq<Client>)
    ensures PrintedAll([c] + rest) == Line(c) + ("\n" + PrintedAll(rest))
    ensures AllHanded([c] + rest) + got == AllHanded(rest) + ([Handed(c)] + got)
  {
    hide Line, Handed;
    assert ([c] + rest)[1..] == rest;
  }

  lemma NothingReceived(key: Ptr, value: Ptr, got: seq<Client>)
    ensures Fits("", "") && Received("", "", key, value, got) == got && AllHanded([]) + got == got
            && PrintedAll([]) == ""
  {
  }
}
