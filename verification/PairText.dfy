/** Reading pairs from text: rc_avpair_parse and the field scanner it uses. */
module PairText {
  import opened Bits
  import opened ValuePairs
  import opened CText

  const AUTH_ID_LEN := 64

  // ----- rc_fieldcpy -----

  /** The first index from pos on where the scan of an unquoted field stops. */
  function FieldEnd(s: CString, pos: nat, stopat: string): (e: nat)
    requires pos <= |s|
    ensures pos <= e <= |s|
    ensures e < |s| ==> s[e] in stopat
    ensures forall i :: pos <= i < e ==> s[i] !in stopat
    decreases |s| - pos
  {
    if pos < |s| && s[pos] !in stopat then FieldEnd(s, pos + 1, stopat) else pos
  }

  function QuoteEnd(s: CString, pos: nat): (n: nat)
    requires pos <= |s|
  {
    FieldEnd(s, pos, "\"\n")
  }

  function Cut(s: string, n: nat): (r: string)
    ensures |r| <= n && r <= s
  {
    if |s| <= n then s else s[..n]
  }

  /** The field at pos, cut to len - 1 characters, and where the scan goes on.
      A quoted field runs to the closing quote, which is swallowed, or to the
      end of the line; other fields stop at any character of stopat. */
  function Field(s: CString, pos: nat, stopat: string, len: nat): (r: (string, nat))
    requires pos <= |s| && len > 0
    ensures pos <= r.1 <= |s|
    ensures |r.0| < len && forall c <- r.0 :: 0 < c as int < 256
  {
    if CharAt(s, pos) == '"' then
      var e := QuoteEnd(s, pos + 1);
      (Cut(s[pos + 1..e], len - 1), if CharAt(s, e) == '"' then e + 1 else e)
    else
      var e := FieldEnd(s, pos, stopat);
      (Cut(s[pos..e], len - 1), e)
  }

  /** while (*ptr is none of stop) copy it, as long as there is room */
  method CopyUntil(s: CString, start: nat, stop: string, room: nat) returns (field: string, ptr: nat)
    requires start <= |s|
    ensures ptr == FieldEnd(s, start, stop) && field == Cut(s[start..ptr], room)
  {
    field, ptr := "", start;
    while CharAt(s, ptr) != '\0' && CharAt(s, ptr) !in stop
      invariant start <= ptr <= |s|
      invariant FieldEnd(s, ptr, stop) == FieldEnd(s, start, stop)
      invariant field == Cut(s[start..ptr], room)
      decreases |s| - ptr
    {
      assert s[start..ptr + 1] == s[start..ptr] + [s[ptr]];
      if |field| < room {
        field := field + [CharAt(s, ptr)];
      }
      ptr := ptr + 1;
    }
  }

  /** rc_fieldcpy */
  method FieldCopy(s: CString, uptr: nat, stopat: string, len: nat) returns (field: string, ptr: nat)
    requires uptr <= |s| && len > 0
    ensures (field, ptr) == Field(s, uptr, stopat, len)
  {
    ptr := uptr;
    if CharAt(s, ptr) == '"' {
      field, ptr := CopyUntil(s, ptr + 1, "\"\n", len - 1);
      if CharAt(s, ptr) == '"' {
        ptr := ptr + 1;
      }
      return;
    }
    field, ptr := CopyUntil(s, ptr, stopat, len - 1);
  }

  // ----- rc_avpair_parse -----

  type Address = s: seq<byte> | |s| == 16 witness Zeros(16)

  type Buffer = s: seq<byte> | |s| == AUTH_STRING_LEN + 1 witness Zeros(AUTH_STRING_LEN + 1)

  /** The library calls behind address and date values, and what malloc leaves
      in the string buffer of the pair whose value stands at a position. */
  datatype Library = Library(inet4: string -> Option<word>, inet6: string -> Option<Address>, date: string -> word,
                             memory: nat -> Buffer)

  /** The buffer after copying the octets to its start. */
  function Over(m: Buffer, octets: seq<byte>): (s: Buffer)
    requires |octets| <= AUTH_STRING_LEN + 1
    ensures s[..|octets|] == octets && s[|octets|..] == m[|octets|..]
  {
    octets + m[|octets|..]
  }

  /** strcpy */
  function Copied(m: Buffer, octets: seq<byte>): (s: Buffer)
    requires |octets| <= AUTH_STRING_LEN
    ensures s[..|octets|] == octets && s[|octets|] == 0
  {
    Over(m, octets + [0])
  }

  datatype Mode = Name | Equal | Value

  /** Where the parser stands: the attribute is the one of the name read last. */
  datatype State = State(pos: nat, mode: Mode, attr: DictAttr, pairs: seq<Pair>)

  /** The next state, or the return code together with the list left behind. */
  datatype Outcome = Next(state: State) | Stop(code: int, pairs: seq<Pair>)

  /** The first attribute with this name, or the number of attributes. */
  function NamedAttr(attributes: seq<DictAttr>, name: string): (k: nat)
    ensures k <= |attributes| && (k < |attributes| ==> SameIgnoringCase(attributes[k].name, name))
    ensures forall j :: 0 <= j < k ==> !SameIgnoringCase(attributes[j].name, name)
  {
    if attributes == [] || SameIgnoringCase(attributes[0].name, name) then 0 else 1 + NamedAttr(attributes[1..], name)
  }

  /** rc_dict_findattr */
  function FindAttr(attributes: seq<DictAttr>, name: string): (r: Option<DictAttr>)
    ensures r.None? <==> forall j :: 0 <= j < |attributes| ==> !SameIgnoringCase(attributes[j].name, name)
    ensures r.Some? ==>
              exists k :: 0 <= k < |attributes| && attributes[k] == r.value && SameIgnoringCase(r.value.name, name)
                && forall j :: 0 <= j < k ==> !SameIgnoringCase(attributes[j].name, name)
  {
    var k := NamedAttr(attributes, name);
    if k < |attributes| then Some(attributes[k]) else None
  }

  /** The first value with this name, or the number of values. */
  function NamedVal(values: seq<DictValue>, name: string): (k: nat)
    ensures k <= |values| && (k < |values| ==> SameIgnoringCase(values[k].name, name))
    ensures forall j :: 0 <= j < k ==> !SameIgnoringCase(values[j].name, name)
  {
    if values == [] || SameIgnoringCase(values[0].name, name) then 0 else 1 + NamedVal(values[1..], name)
  }

  /** rc_dict_findval: whatever attribute the value belongs to. */
  function FindVal(values: seq<DictValue>, name: string): (r: Option<DictValue>)
    ensures r.None? <==> forall j :: 0 <= j < |values| ==> !SameIgnoringCase(values[j].name, name)
    ensures r.Some? ==>
              exists k :: 0 <= k < |values| && values[k] == r.value && SameIgnoringCase(r.value.name, name)
                && forall j :: 0 <= j < k ==> !SameIgnoringCase(values[j].name, name)
  {
    var k := NamedVal(values, name);
    if k < |values| then Some(values[k]) else None
  }

  function Octets(s: string): (o: seq<byte>)
    requires forall c <- s :: 0 < c as int < 256
    ensures |o| == |s| && forall i :: 0 <= i < |s| ==> o[i] == s[i] as int
  {
    seq(|s|, i requires 0 <= i < |s| => assert s[i] in s; OctetOf(s[i]))
  }

  function OctetOf(c: char): (b: byte)
    requires c as int < 256
  {
    c as int
  }

  datatype Made = Made(pair: Pair) | Rejected(freed: bool)

  /** The pair for a value text.  Rejections tell whether the list built so far
      is freed: it is not when an address does not convert. */
  function MakePair(lib: Library, memory: Buffer, d: Dictionary, attr: DictAttr, valstr: string): (m: Made)
    requires |valstr| <= AUTH_STRING_LEN && forall c <- valstr :: 0 < c as int < 256
    ensures m.Made? ==> ValidPair(m.pair)
  {
    var blank := Pair(attr.name, attr.value, attr.typ, 0, memory);
    match attr.typ
    case String => Made(blank.(strvalue := Copied(memory, Octets(valstr)), lvalue := |valstr|))
    case Integer =>
      if valstr != "" && IsDigit(valstr[0]) then Made(blank.(lvalue := Atoi(valstr) % 0x1_0000_0000))
      else
        (match FindVal(d.values, valstr)
         case None => Rejected(true)
         case Some(dval) => Made(blank.(lvalue := dval.value)))
    case IpAddr =>
      (match lib.inet4(valstr)
       case None => Rejected(false)
       case Some(w) => Made(blank.(lvalue := w)))
    case Ipv6Addr =>
      (match lib.inet6(valstr)
       case None => Rejected(false)
       case Some(a) => Made(blank.(strvalue := Over(memory, a), lvalue := 16)))
    case Ipv6Prefix =>
      var slash := Find(valstr, '/');
      if slash == |valstr| then Rejected(false)
      else
        (match lib.inet6(valstr[..slash])
         case None => Rejected(false)
         case Some(a) =>
           Made(blank.(strvalue := Over(memory, [0, Atoi(valstr[slash + 1..]) % 0x100] + a), lvalue := 18)))
    case Date => Made(blank.(lvalue := lib.date(valstr)))
    case Unknown(_) => Rejected(true)
  }

  /** One turn of the parsing loop, s[pos] being neither a newline nor the end. */
  function Step(lib: Library, d: Dictionary, s: CString, st: State): (o: Outcome)
    requires st.pos < |s|
    ensures o.Next? ==> st.pos <= o.state.pos <= |s| && Measure(s, o.state) < Measure(s, st)
  {
    if IsBlank(s[st.pos]) then Next(st.(pos := st.pos + 1))
    else
      match st.mode
      case Name =>
        var (attrstr, pos) := Field(s, st.pos, " \t\n=,", AUTH_ID_LEN);
        (match FindAttr(d.attributes, attrstr)
         case None => Stop(-1, [])
         case Some(attr) => Next(State(pos, Equal, attr, st.pairs)))
      case Equal =>
        if s[st.pos] == '=' then Next(st.(pos := st.pos + 1, mode := Value)) else Stop(-1, [])
      case Value =>
        var (valstr, pos) := Field(s, st.pos, " \t\n,", AUTH_STRING_LEN + 1);
        match MakePair(lib, lib.memory(st.pos), d, st.attr, valstr)
        case Rejected(freed) => Stop(-1, if freed then [] else st.pairs)
        case Made(pair) => Next(State(pos, Name, st.attr, st.pairs + [DigestFixup(pair)]))
  }

  /** Bounds the turns left: names and values may take no character at all, but
      only an equal sign leads from one to the other. */
  function Measure(s: CString, st: State): (n: nat)
    requires st.pos <= |s|
  {
    3 * (|s| - st.pos) + match st.mode case Name => 1 case Equal => 0 case Value => 2
  }

  /** The whole parse: the return code and the list at the end. */
  function Parse(lib: Library, d: Dictionary, s: CString, st: State): (r: (int, seq<Pair>))
    requires st.pos <= |s|
    decreases Measure(s, st)
  {
    if CharAt(s, st.pos) == '\n' || CharAt(s, st.pos) == '\0' then (0, st.pairs)
    else
      match Step(lib, d, s, st)
      case Stop(code, pairs) => (code, pairs)
      case Next(next) => Parse(lib, d, s, next)
  }

  const NO_ATTR := DictAttr("", 0, String)

  ghost predicate Agrees(lib: Library, d: Dictionary, s: CString, st: State, result: (int, seq<Pair>))
    requires st.pos <= |s|
  {
    Parse(lib, d, s, st) == result
  }

  /** rc_avpair_parse on the heap.  The list is extended at its end; a syntax
      error drops it, pairs found before the call included. */
  method AvpairParse(lib: Library, d: Dictionary, buffer: CString, firstPair: ValuePair?, ghost nodes: seq<ValuePair>)
    returns (code: int, head: ValuePair?, ghost after: seq<ValuePair>)
    requires Linked(firstPair, nodes)
    modifies nodes
    ensures Linked(head, after)
    ensures (code, PairsOf(after)) == Parse(lib, d, buffer, State(0, Name, NO_ATTR, old(PairsOf(nodes))))
  {
    hide Parse, MakePair, DigestFixup, Field, FindAttr, Step, PairsOf, Linked, Inserted;
    ghost var result := Parse(lib, d, buffer, State(0, Name, NO_ATTR, PairsOf(nodes)));
    var pos: nat, mode: Mode, attr := 0, Name, NO_ATTR;
    head, after := firstPair, nodes;
    while CharAt(buffer, pos) != '\n' && CharAt(buffer, pos) != '\0'
      invariant pos <= |buffer| && Linked(head, after)
      invariant forall i :: 0 <= i < |after| ==> after[i] in nodes || fresh(after[i])
      invariant Agrees(lib, d, buffer, State(pos, mode, attr, PairsOf(after)), result)
      decreases Measure(buffer, State(pos, mode, attr, []))
    {
      ghost var st := State(pos, mode, attr, PairsOf(after));
      ParseStep(lib, d, buffer, st);
      StepCases(lib, d, buffer, st);
      NothingLinked();
      if IsBlank(CharAt(buffer, pos)) {
        pos := pos + 1;
        continue;
      }
      match mode
      case Name =>
        var attrstr;
        attrstr, pos := FieldCopy(buffer, pos, " \t\n=,", AUTH_ID_LEN);
        var found := FindAttr(d.attributes, attrstr);
        if found.None? {
          return -1, null, [];
        }
        attr, mode := found.value, Equal;
      case Equal =>
        if CharAt(buffer, pos) == '=' {
          mode, pos := Value, pos + 1;
        } else {
          return -1, null, [];
        }
      case Value =>
        var memory := lib.memory(pos);
        var valstr;
        valstr, pos := FieldCopy(buffer, pos, " \t\n,", AUTH_STRING_LEN + 1);
        var made := MakePair(lib, memory, d, attr, valstr);
        if made.Rejected? {
          if made.freed {
            return -1, null, [];
          }
          return -1, head, after;
        }
        head, after := Append(head, DigestFixup(made.pair), after);
        mode := Name;
    }
    ParseEnd(lib, d, buffer, State(pos, mode, attr, PairsOf(after)));
    code := 0;
  }

  lemma NothingLinked()
    ensures Linked(null, []) && PairsOf([]) == []
  {
  }

  lemma StepCases(lib: Library, d: Dictionary, s: CString, st: State)
    requires st.pos < |s|
    ensures var o, c := Step(lib, d, s, st), s[st.pos];
            && (IsBlank(c) ==> o == Next(st.(pos := st.pos + 1)))
            && (!IsBlank(c) && st.mode.Name? ==>
                  var f := Field(s, st.pos, " \t\n=,", AUTH_ID_LEN);
                  var found := FindAttr(d.attributes, f.0);
                  o == if found.None? then Stop(-1, []) else Next(State(f.1, Equal, found.value, st.pairs)))
            && (!IsBlank(c) && st.mode.Equal? ==>
                  o == if c == '=' then Next(st.(pos := st.pos + 1, mode := Value)) else Stop(-1, []))
            && (!IsBlank(c) && st.mode.Value? ==>
                  var f := Field(s, st.pos, " \t\n,", AUTH_STRING_LEN + 1);
                  var m := MakePair(lib, lib.memory(st.pos), d, st.attr, f.0);
                  o == if m.Rejected? then Stop(-1, if m.freed then [] else st.pairs)
                       else Next(State(f.1, Name, st.attr, st.pairs + [DigestFixup(m.pair)])))
  {
    hide Field, FindAttr, MakePair, DigestFixup;
  }

  lemma ParseStep(lib: Library, d: Dictionary, s: CString, st: State)
    requires st.pos < |s| && s[st.pos] != '\n'
    ensures var o := Step(lib, d, s, st);
            Parse(lib, d, s, st) == if o.Stop? then (o.code, o.pairs) else Parse(lib, d, s, o.state)
  {
    assert CharAt(s, st.pos) != '\0';
  }

  lemma ParseEnd(lib: Library, d: Dictionary, s: CString, st: State)
    requires st.pos <= |s| && (CharAt(s, st.pos) == '\n' || CharAt(s, st.pos) == '\0')
    ensures Parse(lib, d, s, st) == (0, st.pairs)
  {
  }

  /** A new node for the pair, linked behind the last one. */
  method Append(first: ValuePair?, p: Pair, ghost nodes: seq<ValuePair>)
    returns (head: ValuePair?, ghost after: seq<ValuePair>)
    requires Linked(first, nodes)
    modifies nodes
    ensures Linked(head, after) && PairsOf(after) == old(PairsOf(nodes)) + [p]
    ensures forall i :: 0 <= i < |after| ==> after[i] in nodes || fresh(after[i])
  {
    hide Linked, PairsOf;
    var node := new ValuePair(p, null);
    ghost var k;
    head, k := AvpairInsert(first, null, node, nodes);
    after := Inserted(nodes, k, node);
    ghost var was := old(PairsOf(nodes));
    forall i | 0 <= i < |after|
      ensures PairsOf(after)[i] == (was + [p])[i] && (after[i] in nodes || after[i] == node)
    {
      assert after[i] == if i < k then nodes[i] else node;
    }
    assert PairsOf(after) == was + [p];
  }

  // ----- What well-formed text parses to -----

  /** A quoted text, a decimal number, or a bare word. */
  datatype ItemValue = Text(text: string) | Num(n: nat) | Word(word: string)

  /** One name=value item with the blanks around it. */
  datatype Item = Item(lead: string, name: string, before: string, between: string, value: ItemValue)

  function RenderedValue(v: ItemValue): (text: string) {
    match v case Text(text) => "\"" + text + "\"" case _ => ValueText(v)
  }

  /** The characters of the value. */
  function ValueText(v: ItemValue): (text: string) {
    match v case Text(text) => text case Num(n) => Decimal(n) case Word(word) => word
  }

  function Rendered(it: Item): (text: string) {
    it.lead + (it.name + (it.before + ("=" + (it.between + RenderedValue(it.value)))))
  }

  function RenderedAll(items: seq<Item>): (text: string) {
    if items == [] then "" else Rendered(items[0]) + RenderedAll(items[1..])
  }

  predicate NameFits(name: string) {
    && 0 < |name| < AUTH_ID_LEN && name[0] != '"'
    && forall c <- name :: c !in " \t\n=,"
  }

  /** The value can be written this way. */
  predicate TextFits(v: ItemValue) {
    match v
    case Text(text) =>
      |text| <= AUTH_STRING_LEN && forall c <- text :: c != '"' && c != '\n' && 0 < c as int < 256
    case Num(n) => n < 0x1_0000_0000
    case Word(word) =>
      0 < |word| <= AUTH_STRING_LEN && word[0] != '"' && forall c <- word :: c !in " \t\n," && 0 < c as int < 256
  }

  /** The text is one for values of this attribute: any text for a string, the
      name of a value for an integer, one the library calls convert for the others. */
  predicate Converts(lib: Library, d: Dictionary, attr: DictAttr, text: string) {
    match attr.typ
    case String => true
    case Integer => (text == "" || !IsDigit(text[0])) && NamedVal(d.values, text) < |d.values|
    case IpAddr => lib.inet4(text).Some?
    case Ipv6Addr => lib.inet6(text).Some?
    case Ipv6Prefix => Find(text, '/') < |text| && lib.inet6(text[..Find(text, '/')]).Some?
    case Date => true
    case Unknown(_) => false
  }

  /** The name is in the dictionary and the value is of its type. */
  predicate ItemFits(lib: Library, d: Dictionary, it: Item) {
    && Blanks(it.lead) && Blanks(it.before) && Blanks(it.between)
    && NameFits(it.name) && FindAttr(d.attributes, it.name).Some? && TextFits(it.value)
    && var attr := FindAttr(d.attributes, it.name).value;
       if it.value.Num? then attr.typ.Integer? else Converts(lib, d, attr, ValueText(it.value))
  }

  /** A blank must follow a bare value; a closing quote already ends a text. */
  predicate ItemsFit(lib: Library, d: Dictionary, items: seq<Item>, blankFirst: bool) {
    items != [] ==>
      && ItemFits(lib, d, items[0]) && (blankFirst ==> items[0].lead != "")
      && ItemsFit(lib, d, items[1..], !items[0].value.Text?)
  }

  /** The pair made for an item in a buffer that held this memory. */
  function Expected(lib: Library, d: Dictionary, it: Item, memory: Buffer): (p: Pair)
    requires ItemFits(lib, d, it)
  {
    ItemMakes(lib, d, it, memory);
    DigestFixup(MakePair(lib, memory, d, FindAttr(d.attributes, it.name).value, ValueText(it.value)).pair)
  }

  /** What a user of the pair can see of it: nothing of the memory. */
  function Shown(lib: Library, d: Dictionary, it: Item): (p: Pair)
    requires ItemFits(lib, d, it)
  {
    var attr := FindAttr(d.attributes, it.name).value;
    if it.value.Num? then ShownFixup(Pair(attr.name, attr.value, attr.typ, it.value.n, []))
    else ShownFixup(ShownText(lib, d, attr, ValueText(it.value)))
  }

  function ShownText(lib: Library, d: Dictionary, attr: DictAttr, text: string): (p: Pair)
    requires Converts(lib, d, attr, text) && |text| <= AUTH_STRING_LEN && forall c <- text :: 0 < c as int < 256
    ensures OctetType(p.typ) ==> |p.strvalue| == p.lvalue <= AUTH_STRING_LEN
  {
    var shown := Pair(attr.name, attr.value, attr.typ, 0, []);
    match attr.typ
    case String =>
      assert forall i :: 0 <= i < |text| ==> text[i] in text;
      shown.(lvalue := |text|, strvalue := seq(|text|, i requires 0 <= i < |text| => text[i] as int))
    case Integer => shown.(lvalue := d.values[NamedVal(d.values, text)].value)
    case IpAddr => shown.(lvalue := lib.inet4(text).value)
    case Ipv6Addr => shown.(lvalue := 16, strvalue := lib.inet6(text).value)
    case Ipv6Prefix =>
      var k := Find(text, '/');
      shown.(lvalue := 18, strvalue := [0, Atoi(text[k + 1..]) % 256] + lib.inet6(text[..k]).value)
    case Date => shown.(lvalue := lib.date(text))
  }

  /** The rewriting of digest attributes, on what can be seen. */
  function ShownFixup(p: Pair): (r: Pair)
    requires OctetType(p.typ) ==> |p.strvalue| == p.lvalue <= AUTH_STRING_LEN
  {
    if p.attribute < 1063 || p.attribute > 1072 then p
    else
      var kept := if p.lvalue > 251 then 251 else p.lvalue;
      p.(attribute := 207, lvalue := kept + 2,
         strvalue := if OctetType(p.typ) then [p.attribute - 1062, kept + 2] + p.strvalue[..kept] else [])
  }

  lemma FixupShown(p: Pair)
    requires ValidPair(p)
    ensures ValidPair(DigestFixup(p)) && View(DigestFixup(p)) == ShownFixup(View(p))
  {
    var r := DigestFixup(p);
    if IsDigest(p.attribute) && OctetType(p.typ) {
      var kept := if p.lvalue > 251 then 251 else p.lvalue;
      assert r.strvalue[..kept + 2] == [p.attribute - 1062, kept + 2] + p.strvalue[..kept];
      assert p.strvalue[..p.lvalue][..kept] == p.strvalue[..kept];
    }
  }

  /** An item of the right type makes a pair. */
  lemma ItemMakes(lib: Library, d: Dictionary, it: Item, memory: Buffer)
    requires ItemFits(lib, d, it)
    ensures var text := ValueText(it.value);
            && |text| <= AUTH_STRING_LEN && (forall c <- text :: 0 < c as int < 256)
            && MakePair(lib, memory, d, FindAttr(d.attributes, it.name).value, text).Made?
  {
    hide FindAttr, Decimal;
    if it.value.Num? {
      DecimalShort(it.value.n, 10);
      assert Decimal(it.value.n)[0] in Decimal(it.value.n);
    }
  }

  lemma TextShown(lib: Library, d: Dictionary, attr: DictAttr, text: string, memory: Buffer)
    requires Converts(lib, d, attr, text) && |text| <= AUTH_STRING_LEN && forall c <- text :: 0 < c as int < 256
    ensures var m := MakePair(lib, memory, d, attr, text);
            m.Made? && View(m.pair) == ShownText(lib, d, attr, text)
  {
    hide Atoi;
  }

  lemma NumberShown(lib: Library, d: Dictionary, attr: DictAttr, n: nat, memory: Buffer)
    requires attr.typ.Integer? && n < 0x1_0000_0000
    ensures |Decimal(n)| <= AUTH_STRING_LEN && forall c <- Decimal(n) :: 0 < c as int < 256
    ensures var m := MakePair(lib, memory, d, attr, Decimal(n));
            m.Made? && View(m.pair) == Pair(attr.name, attr.value, attr.typ, n, [])
  {
    hide Decimal, Atol;
    DecimalShort(n, 10);
    AtolDecimal(n, "");
    assert Decimal(n)[0] in Decimal(n) && Decimal(n) + "" == Decimal(n);
  }

  lemma ExpectedShown(lib: Library, d: Dictionary, it: Item, memory: Buffer)
    requires ItemFits(lib, d, it)
    ensures var p := Expected(lib, d, it, memory); ValidPair(p) && View(p) == Shown(lib, d, it)
  {
    hide DigestFixup, ShownFixup, FindAttr, MakePair, ShownText, Decimal, Converts;
    var attr := FindAttr(d.attributes, it.name).value;
    ItemMakes(lib, d, it, memory);
    if it.value.Num? {
      NumberShown(lib, d, attr, it.value.n, memory);
    } else {
      TextShown(lib, d, attr, ValueText(it.value), memory);
    }
    FixupShown(MakePair(lib, memory, d, attr, ValueText(it.value)).pair);
  }

  /** The pairs show the items, in order. */
  predicate Shows(pairs: seq<Pair>, lib: Library, d: Dictionary, items: seq<Item>, blankFirst: bool)
    requires ItemsFit(lib, d, items, blankFirst)
  {
    |pairs| == |items|
    && (items != [] ==>
          && ValidPair(pairs[0]) && View(pairs[0]) == Shown(lib, d, items[0])
          && Shows(pairs[1..], lib, d, items[1..], !items[0].value.Text?))
  }

  /** Nothing but blanks up to the end of the line or of the text. */
  predicate LineEnds(tail: string) {
    tail != "" && tail[0] != '\n' ==> IsBlank(tail[0]) && LineEnds(tail[1..])
  }

  lemma {:induction false} FieldEndAt(s: CString, pos: nat, e: nat, stop: string)
    requires pos <= e <= |s|
    requires forall i :: pos <= i < e ==> s[i] !in stop
    requires e < |s| ==> s[e] in stop
    ensures FieldEnd(s, pos, stop) == e
    decreases e - pos
  {
    if pos < e { FieldEndAt(s, pos + 1, e, stop); }
  }

  /** s continues with t at pos. */
  predicate Continues(s: string, pos: nat, t: string) {
    pos <= |s| && s[pos..] == t
  }

  lemma Advance(s: string, pos: nat, a: string, b: string)
    requires Continues(s, pos, a + b)
    ensures Continues(s, pos + |a|, b)
    ensures forall i :: 0 <= i < |a| ==> s[pos + i] == a[i]
    ensures |a| + |b| == |s| - pos && s[pos..pos + |a|] == a
  {
    assert s[pos + |a|..] == s[pos..][|a|..] == b;
    assert s[pos..pos + |a|] == s[pos..][..|a|];
    assert forall i :: 0 <= i < |a| ==> s[pos..][i] == a[i];
  }

  lemma {:induction false} SkipBlanks(lib: Library, d: Dictionary, s: CString, st: State, b: string, rest: string)
    requires Continues(s, st.pos, b + rest) && Blanks(b)
    ensures Continues(s, st.pos + |b|, rest)
    ensures Parse(lib, d, s, st) == Parse(lib, d, s, st.(pos := st.pos + |b|))
    decreases |b|
  {
    hide Parse, Step, Field, FindAttr, MakePair;
    if b != "" {
      assert b + rest == b[..1] + (b[1..] + rest);
      Advance(s, st.pos, b[..1], b[1..] + rest);
      assert s[st.pos + 0] == b[..1][0] == b[0] && b[0] in b;
      ParseStep(lib, d, s, st);
      StepCases(lib, d, s, st);
      SkipBlanks(lib, d, s, st.(pos := st.pos + 1), b[1..], rest);
    } else {
      assert b + rest == rest;
    }
  }

  lemma NameField(s: CString, pos: nat, name: string, rest: string)
    requires NameFits(name) && Continues(s, pos, name + rest)
    requires rest != "" && rest[0] in " \t\n=,"
    ensures Field(s, pos, " \t\n=,", AUTH_ID_LEN) == (name, pos + |name|)
    ensures pos < |s| && s[pos] == name[0] && s[pos] !in " \t\n=,"
    ensures Continues(s, pos + |name|, rest)
  {
    var stop := " \t\n=,";
    Advance(s, pos, name, rest);
    assert s[pos + |name|] == s[pos + |name|..][0];
    assert name[0] in name;
    forall i | pos <= i < pos + |name|
      ensures s[i] !in stop
    {
      assert s[i] == name[i - pos] && name[i - pos] in name;
    }
    FieldEndAt(s, pos, pos + |name|, stop);
  }

  lemma NameStep(lib: Library, d: Dictionary, s: CString, st: State, name: string, rest: string)
    requires st.mode.Name? && Continues(s, st.pos, name + rest)
    requires NameFits(name) && FindAttr(d.attributes, name).Some?
    requires rest != "" && rest[0] in " \t\n=,"
    ensures Parse(lib, d, s, st)
         == Parse(lib, d, s, State(st.pos + |name|, Equal, FindAttr(d.attributes, name).value, st.pairs))
    ensures Continues(s, st.pos + |name|, rest)
  {
    hide Parse, Step, MakePair, Field, Continues, NameFits, FindAttr;
    NameField(s, st.pos, name, rest);
    ParseStep(lib, d, s, st);
    StepCases(lib, d, s, st);
  }

  lemma EqualStep(lib: Library, d: Dictionary, s: CString, st: State, rest: string)
    requires st.mode.Equal? && Continues(s, st.pos, "=" + rest)
    ensures Parse(lib, d, s, st) == Parse(lib, d, s, st.(pos := st.pos + 1, mode := Value))
    ensures Continues(s, st.pos + 1, rest)
  {
    hide Parse, Step;
    Advance(s, st.pos, "=", rest);
    assert s[st.pos] == "="[0];
    ParseStep(lib, d, s, st);
    StepCases(lib, d, s, st);
  }

  lemma TextField(s: CString, pos: nat, text: string, rest: string)
    requires Continues(s, pos, "\"" + text + "\"" + rest)
    requires |text| <= AUTH_STRING_LEN && forall c <- text :: c != '"' && c != '\n'
    ensures Field(s, pos, " \t\n,", AUTH_STRING_LEN + 1) == (text, pos + |text| + 2)
    ensures pos < |s| && s[pos] == '"'
    ensures Continues(s, pos + |text| + 2, rest)
  {
    hide FieldEnd, Continues;
    QuotedParts(s, pos, text, rest);
    var e := pos + 1 + |text|;
    var stop := "\"\n";
    forall i | pos + 1 <= i < e
      ensures s[i] !in stop
    {
      assert s[i] == s[pos + 1..e][i - pos - 1] == text[i - pos - 1] && text[i - pos - 1] in text;
    }
    FieldEndAt(s, pos + 1, e, stop);
  }

  lemma QuotedParts(s: string, pos: nat, text: string, rest: string)
    requires Continues(s, pos, "\"" + text + "\"" + rest)
    ensures pos + |text| + 2 <= |s|
    ensures s[pos] == '"' && s[pos + 1..pos + 1 + |text|] == text && s[pos + 1 + |text|] == '"'
    ensures Continues(s, pos + |text| + 2, rest)
  {
    var quote, all := "\"", "\"" + text + "\"" + rest;
    assert all == quote + (text + (quote + rest));
    Advance(s, pos, quote, text + (quote + rest));
    Advance(s, pos + 1, text, quote + rest);
    Advance(s, pos + 1 + |text|, quote, rest);
    assert s[pos + 0] == quote[0] && s[pos + 1 + |text| + 0] == quote[0];
  }

  lemma DigitsFit(text: string)
    requires text != "" && forall c <- text :: IsDigit(c)
    ensures text[0] != '"' && forall c <- text :: c !in " \t\n,"
  {
    assert text[0] in text;
  }

  lemma WordField(s: CString, pos: nat, text: string, rest: string)
    requires Continues(s, pos, text + rest)
    requires 0 < |text| <= AUTH_STRING_LEN && text[0] != '"' && forall c <- text :: c !in " \t\n,"
    requires rest == "" || IsBlank(rest[0]) || rest[0] == '\n'
    ensures Field(s, pos, " \t\n,", AUTH_STRING_LEN + 1) == (text, pos + |text|)
    ensures pos < |s| && !IsBlank(s[pos]) && s[pos] != '\n'
    ensures Continues(s, pos + |text|, rest)
  {
    var stop := " \t\n,";
    Advance(s, pos, text, rest);
    var e := pos + |text|;
    assert e < |s| ==> s[e] == s[e..][0] == rest[0];
    assert text[0] in text && s[pos + 0] == text[0];
    forall i | pos <= i < e
      ensures s[i] !in stop
    {
      assert s[i] == text[i - pos] && text[i - pos] in text;
    }
    FieldEndAt(s, pos, e, stop);
  }

  /** What the value of an item makes, with ItemFits no longer in sight. */
  lemma ItemMade(lib: Library, d: Dictionary, it: Item, memory: Buffer)
    requires ItemFits(lib, d, it)
    ensures FindAttr(d.attributes, it.name).Some?
    ensures var text := ValueText(it.value);
            && |text| <= AUTH_STRING_LEN && (forall c <- text :: 0 < c as int < 256)
            && var m := MakePair(lib, memory, d, FindAttr(d.attributes, it.name).value, text);
               m.Made? && DigestFixup(m.pair) == Expected(lib, d, it, memory)
  {
    hide DigestFixup, FindAttr, Decimal, MakePair;
    ItemMakes(lib, d, it, memory);
  }

  lemma FieldStep(lib: Library, d: Dictionary, s: CString, st: State, it: Item, next: State)
    requires st.mode.Value? && ItemFits(lib, d, it) && st.attr == FindAttr(d.attributes, it.name).value
    requires st.pos < |s| && !IsBlank(s[st.pos]) && s[st.pos] != '\n'
    requires Field(s, st.pos, " \t\n,", AUTH_STRING_LEN + 1) == (ValueText(it.value), next.pos)
    requires next == State(next.pos, Name, st.attr, st.pairs + [Expected(lib, d, it, lib.memory(st.pos))])
    ensures next.pos <= |s| && Parse(lib, d, s, st) == Parse(lib, d, s, next)
  {
    hide Parse, Step, DigestFixup, FindAttr, Field, Expected, MakePair, ValueText, ItemFits;
    ItemMade(lib, d, it, lib.memory(st.pos));
    ParseStep(lib, d, s, st);
    StepCases(lib, d, s, st);
    assert Step(lib, d, s, st).state == next;
  }

  lemma ItemText(lib: Library, d: Dictionary, it: Item)
    requires ItemFits(lib, d, it)
    ensures TextFits(it.value)
  {
    hide FindAttr, NameFits, Converts, TextFits;
  }

  lemma ValueField(s: CString, pos: nat, v: ItemValue, rest: string)
    requires TextFits(v) && Continues(s, pos, RenderedValue(v) + rest)
    requires !v.Text? ==> rest == "" || IsBlank(rest[0]) || rest[0] == '\n'
    ensures Field(s, pos, " \t\n,", AUTH_STRING_LEN + 1) == (ValueText(v), pos + |RenderedValue(v)|)
    ensures pos < |s| && !IsBlank(s[pos]) && s[pos] != '\n'
    ensures Continues(s, pos + |RenderedValue(v)|, rest)
  {
    hide Field, Continues, Decimal;
    match v {
      case Text(text) =>
        TextField(s, pos, text, rest);
      case Num(n) =>
        DecimalShort(n, 10);
        DigitsFit(Decimal(n));
        WordField(s, pos, Decimal(n), rest);
      case Word(word) =>
        WordField(s, pos, word, rest);
    }
  }

  lemma ValueStep(lib: Library, d: Dictionary, s: CString, st: State, it: Item, rest: string)
    requires st.mode.Value? && ItemFits(lib, d, it)
    requires st.attr == FindAttr(d.attributes, it.name).value
    requires Continues(s, st.pos, RenderedValue(it.value) + rest)
    requires !it.value.Text? ==> rest == "" || IsBlank(rest[0]) || rest[0] == '\n'
    ensures Continues(s, st.pos + |RenderedValue(it.value)|, rest)
    ensures Parse(lib, d, s, st)
         == Parse(lib, d, s, State(st.pos + |RenderedValue(it.value)|, Name, st.attr,
                                      st.pairs + [Expected(lib, d, it, lib.memory(st.pos))]))
  {
    hide Parse, FindAttr, Field, Continues, Expected, ValueText, RenderedValue, ItemFits;
    ItemText(lib, d, it);
    ValueField(s, st.pos, it.value, rest);
    var pairs := st.pairs + [Expected(lib, d, it, lib.memory(st.pos))];
    FieldStep(lib, d, s, st, it, State(st.pos + |RenderedValue(it.value)|, Name, st.attr, pairs));
  }

  function Pow10(n: nat): (power: nat) { if n == 0 then 1 else 10 * Pow10(n - 1) }

  lemma {:induction false} DecimalShort(n: nat, k: nat)
    requires k > 0 && n < Pow10(k)
    ensures |Decimal(n)| <= k
  {
    if n >= 10 { DecimalShort(n / 10, k - 1); }
  }

  lemma {:induction false} LineEndStops(lib: Library, d: Dictionary, s: CString, st: State, tail: string)
    requires Continues(s, st.pos, tail) && LineEnds(tail)
    ensures Parse(lib, d, s, st) == (0, st.pairs)
    decreases |tail|
  {
    if tail == "" || tail[0] == '\n' {
      assert tail != "" ==> s[st.pos] == s[st.pos..][0];
      ParseEnd(lib, d, s, st);
    } else {
      assert tail == tail[..1] + tail[1..] && Blanks(tail[..1]);
      SkipBlanks(lib, d, s, st, tail[..1], tail[1..]);
      LineEndStops(lib, d, s, st.(pos := st.pos + 1), tail[1..]);
    }
  }

  /** Blank-separated items name="text" and name=decimal, up to the end of the
      line, append exactly pairs that show them to the list, in order. */
  lemma {:induction false} ItemsParse(lib: Library, d: Dictionary, s: CString, st: State, items: seq<Item>,
                                      tail: string, blankFirst: bool) returns (pairs: seq<Pair>)
    requires st.mode.Name? && Continues(s, st.pos, RenderedAll(items) + tail)
    requires ItemsFit(lib, d, items, blankFirst) && LineEnds(tail)
    ensures Parse(lib, d, s, st) == (0, st.pairs + pairs) && Shows(pairs, lib, d, items, blankFirst)
    decreases |items|
  {
    hide Parse, Step, Rendered, Expected, Shown, ItemFits, View;
    if items == [] {
      assert RenderedAll(items) + tail == tail && st.pairs + [] == st.pairs;
      LineEndStops(lib, d, s, st, tail);
      pairs := [];
    } else {
      var it, rest := items[0], RenderedAll(items[1..]) + tail;
      assert RenderedAll(items) + tail == Rendered(it) + rest;
      RestStarts(lib, d, items[1..], !it.value.Text?, tail);
      var memory := ItemParses(lib, d, s, st, it, rest);
      var p := Expected(lib, d, it, memory);
      ExpectedShown(lib, d, it, memory);
      var next := State(st.pos + |Rendered(it)|, Name, FindAttr(d.attributes, it.name).value, st.pairs + [p]);
      var more := ItemsParse(lib, d, s, next, items[1..], tail, !it.value.Text?);
      pairs := [p] + more;
      assert st.pairs + [p] + more == st.pairs + pairs && pairs[1..] == more;
    }
  }

  lemma RestStarts(lib: Library, d: Dictionary, items: seq<Item>, blankFirst: bool, tail: string)
    requires ItemsFit(lib, d, items, blankFirst) && LineEnds(tail)
    ensures var rest := RenderedAll(items) + tail;
            blankFirst ==> rest == "" || IsBlank(rest[0]) || rest[0] == '\n'
  {
    if items != [] && blankFirst {
      assert (RenderedAll(items) + tail)[0] == items[0].lead[0] && items[0].lead[0] in items[0].lead;
    }
  }

  lemma ItemParts(lib: Library, d: Dictionary, it: Item)
    requires ItemFits(lib, d, it)
    ensures Blanks(it.lead) && Blanks(it.before) && Blanks(it.between)
    ensures NameFits(it.name) && FindAttr(d.attributes, it.name).Some?
  {
    hide FindAttr, NameFits, Converts, TextFits;
  }

  lemma ItemParses(lib: Library, d: Dictionary, s: CString, st: State, it: Item, rest: string) returns (memory: Buffer)
    requires st.mode.Name? && ItemFits(lib, d, it) && Continues(s, st.pos, Rendered(it) + rest)
    requires !it.value.Text? ==> rest == "" || IsBlank(rest[0]) || rest[0] == '\n'
    ensures FindAttr(d.attributes, it.name).Some?
    ensures var attr := FindAttr(d.attributes, it.name).value;
            Parse(lib, d, s, st)
            == Parse(lib, d, s, State(st.pos + |Rendered(it)|, Name, attr, st.pairs + [Expected(lib, d, it, memory)]))
    ensures Continues(s, st.pos + |Rendered(it)|, rest)
  {
    hide Parse, Step, RenderedValue, Expected, FindAttr, Continues, ItemFits, NameFits;
    ItemParts(lib, d, it);
    var attr := FindAttr(d.attributes, it.name).value;
    var v := RenderedValue(it.value) + rest;
    var afterName := it.before + ("=" + (it.between + v));
    assert Rendered(it) + rest == it.lead + (it.name + afterName);
    assert afterName[0] == if it.before == "" then '=' else it.before[0];
    assert it.before != "" ==> it.before[0] in it.before;
    SkipBlanks(lib, d, s, st, it.lead, it.name + afterName);
    var st1 := st.(pos := st.pos + |it.lead|);
    NameStep(lib, d, s, st1, it.name, afterName);
    var st2 := State(st1.pos + |it.name|, Equal, attr, st.pairs);
    SignParses(lib, d, s, st2, it, v);
    var st5 := st2.(pos := st2.pos + |it.before| + 1 + |it.between|, mode := Value);
    memory := lib.memory(st5.pos);
    ValueStep(lib, d, s, st5, it, rest);
  }

  lemma SignParses(lib: Library, d: Dictionary, s: CString, st: State, it: Item, v: string)
    requires st.mode.Equal? && Blanks(it.before) && Blanks(it.between)
    requires Continues(s, st.pos, it.before + ("=" + (it.between + v)))
    ensures var after := st.(pos := st.pos + |it.before| + 1 + |it.between|, mode := Value);
            Continues(s, after.pos, v) && Parse(lib, d, s, st) == Parse(lib, d, s, after)
  {
    hide Parse, Step, Continues, FindAttr;
    SkipBlanks(lib, d, s, st, it.before, "=" + (it.between + v));
    var st3 := st.(pos := st.pos + |it.before|);
    EqualStep(lib, d, s, st3, it.between + v);
    var st4 := st3.(pos := st3.pos + 1, mode := Value);
    SkipBlanks(lib, d, s, st4, it.between, v);
  }

  lemma PrefixText(address: string, n: byte)
    requires |address| <= 200 && forall c <- address :: c != '/' && 0 < c as int < 256
    ensures var text := address + "/" + Decimal(n);
            && |text| <= AUTH_STRING_LEN && (forall c <- text :: 0 < c as int < 256)
            && Find(text, '/') == |address| && text[..|address|] == address
            && Atoi(text[|address| + 1..]) == n
  {
    hide Decimal, Atol, Find;
    var text := address + "/" + Decimal(n);
    assert Pow10(3) == 1000;
    DecimalShort(n, 3);
    AtolDecimal(n, "");
    forall j | 0 <= j < |address|
      ensures text[j] != '/'
    {
      assert text[j] in address;
    }
    FindIs(text, '/', |address|);
    assert text[|address| + 1..] == Decimal(n) == Decimal(n) + "";
  }

  /** A prefix is its address behind a zero and the printed length. */
  lemma PrefixShown(lib: Library, d: Dictionary, attr: DictAttr, address: string, n: byte, memory: Buffer)
    requires attr.typ.Ipv6Prefix? && lib.inet6(address).Some? && |address| <= 200
    requires forall c <- address :: c != '/' && 0 < c as int < 256
    ensures var text := address + "/" + Decimal(n);
            && |text| <= AUTH_STRING_LEN && (forall c <- text :: 0 < c as int < 256)
            && var m := MakePair(lib, memory, d, attr, text);
               m.Made? && ValidPair(m.pair) && View(m.pair).lvalue == 18
               && View(m.pair).strvalue == [0, n] + lib.inet6(address).value
  {
    hide Decimal, Atoi, Find;
    PrefixText(address, n);
  }

  /** A name is looked up by its first 63 characters, however long it is. */
  lemma LongName(lib: Library, d: Dictionary, s: CString, st: State, e: nat)
    requires st.mode.Name? && st.pos < e <= |s| && s[st.pos] != '"'
    requires forall i :: st.pos <= i < e ==> s[i] !in " \t\n=,"
    requires e < |s| ==> s[e] in " \t\n=,"
    ensures var found := FindAttr(d.attributes, if e - st.pos <= 63 then s[st.pos..e] else s[st.pos..st.pos + 63]);
            Parse(lib, d, s, st)
            == if found.None? then (-1, []) else Parse(lib, d, s, State(e, Equal, found.value, st.pairs))
  {
    hide Parse, Step, FindAttr, Field;
    CutName(s, st.pos, e);
    ParseStep(lib, d, s, st);
    StepCases(lib, d, s, st);
  }

  lemma CutName(s: CString, pos: nat, e: nat)
    requires pos < e <= |s| && s[pos] != '"'
    requires forall i :: pos <= i < e ==> s[i] !in " \t\n=,"
    requires e < |s| ==> s[e] in " \t\n=,"
    ensures Field(s, pos, " \t\n=,", AUTH_ID_LEN) == (if e - pos <= 63 then s[pos..e] else s[pos..pos + 63], e)
  {
    hide FieldEnd;
    FieldEndAt(s, pos, e, " \t\n=,");
    assert e - pos > 63 ==> s[pos..e][..63] == s[pos..pos + 63];
  }

  /** Anything but an equals sign behind a name drops the list. */
  lemma MissingSign(lib: Library, d: Dictionary, s: CString, st: State)
    requires st.mode.Equal? && st.pos < |s| && s[st.pos] !in " \t\n="
    ensures Parse(lib, d, s, st) == (-1, [])
  {
    hide Parse, Step;
    ParseStep(lib, d, s, st);
    StepCases(lib, d, s, st);
  }

  /** A bare value that does not convert ends the parse with an error.  The list
      is dropped for the unknown name of an integer and for an unknown type, but
      kept for an address. */
  lemma ValueRejected(lib: Library, d: Dictionary, s: CString, st: State, word: string, rest: string)
    requires st.mode.Value? && Continues(s, st.pos, word + rest) && TextFits(Word(word))
    requires rest == "" || IsBlank(rest[0]) || rest[0] == '\n'
    requires match st.attr.typ
             case Integer => !IsDigit(word[0]) && forall v <- d.values :: !SameIgnoringCase(v.name, word)
             case IpAddr => lib.inet4(word).None?
             case Ipv6Addr => lib.inet6(word).None?
             case Ipv6Prefix => '/' !in word
             case Unknown(_) => true
             case _ => false
    ensures Parse(lib, d, s, st)
         == (-1, if st.attr.typ.Integer? || st.attr.typ.Unknown? then [] else st.pairs)
  {
    hide Parse, Step, Field, Continues, FindVal;
    WordField(s, st.pos, word, rest);
    ParseStep(lib, d, s, st);
    StepCases(lib, d, s, st);
  }

  /** A comma does not separate items: where a name is expected it drops the
      whole list, whatever the dictionary holds. */
  lemma CommaIsNoSeparator(lib: Library, d: Dictionary, s: CString, st: State)
    requires st.mode.Name? && st.pos < |s| && s[st.pos] == ','
    ensures Parse(lib, d, s, st) == (-1, [])
  {
    hide Parse, Step, FindAttr;
    assert Field(s, st.pos, " \t\n=,", AUTH_ID_LEN) == ("", st.pos);
    ParseStep(lib, d, s, st);
    StepCases(lib, d, s, st);
    var found := FindAttr(d.attributes, "");
    if found.Some? {
      var next := State(st.pos, Equal, found.value, st.pairs);
      ParseStep(lib, d, s, next);
      StepCases(lib, d, s, next);
    }
  }
}
