/** Attribute-value pairs, the dictionary they are typed by, and the linked list
    of pairs that the client library builds and walks. */
module ValuePairs {
  import opened Bits

  const PW_USER_PASSWORD := 2
  const PW_VENDOR_SPECIFIC := 26
  const PW_DIGEST_ATTRIBUTES := 207
  const PW_DIGEST_REALM := 1063
  const PW_DIGEST_USER_NAME := 1072
  const AUTH_STRING_LEN := 253

  datatype Option<+T> = None | Some(value: T)

  datatype AttrType = String | Integer | IpAddr | Date | Ipv6Addr | Ipv6Prefix | Unknown(code: nat)

  /** Attribute numbers carry the vendor in their upper 16 bits. */
  datatype Pair = Pair(name: string, attribute: word, typ: AttrType, lvalue: word, strvalue: seq<byte>)

  function Vendor(attribute: word): (v: nat) ensures v < 0x1_0000 { attribute / 0x1_0000 }
  function AttrId(attribute: word): (id: nat) ensures id < 0x1_0000 { attribute % 0x1_0000 }

  /** attribute | (vendor << 16), in 32 bits. */
  function Attribute(id: nat, vendor: word): (w: word)
    requires id < 0x1_0000
  {
    id + vendor % 0x1_0000 * 0x1_0000
  }

  predicate OctetType(t: AttrType) { t.String? || t.Ipv6Addr? || t.Ipv6Prefix? }

  /** The string buffer has 254 octets and lvalue counts the used ones. */
  predicate ValidPair(p: Pair) {
    && |p.strvalue| == AUTH_STRING_LEN + 1
    && (OctetType(p.typ) ==> p.lvalue <= AUTH_STRING_LEN)
  }

  type ValidPairs = s: seq<Pair> | forall p <- s :: ValidPair(p)

  /** What a user of the pair can see: octets past lvalue, and the string buffer
      of a number, are not part of the value. */
  function View(p: Pair): (v: Pair)
    requires ValidPair(p)
  {
    p.(strvalue := if OctetType(p.typ) then p.strvalue[..p.lvalue] else [])
  }

  function Views(s: ValidPairs): (v: seq<Pair>)
    ensures |v| == |s|
    ensures forall i :: 0 <= i < |s| ==> v[i] == View(s[i])
  {
    if s == [] then [] else [View(s[0])] + Views(s[1..])
  }

  lemma {:induction false} ViewsConcat(s: ValidPairs, t: ValidPairs)
    ensures (forall p <- s + t :: ValidPair(p)) && Views(s + t) == Views(s) + Views(t)
  {
  }

  // ----- Dictionary -----

  datatype DictAttr = DictAttr(name: string, value: word, typ: AttrType)
  datatype DictVendor = DictVendor(name: string, vendorpec: word)
  datatype DictValue = DictValue(attrname: string, name: string, value: word)
  datatype Dictionary = Dictionary(attributes: seq<DictAttr>, vendors: seq<DictVendor>, values: seq<DictValue>)

  /** The first entry with this number, or the number of entries. */
  function AttrAt(attributes: seq<DictAttr>, attribute: word): (k: nat)
    ensures k <= |attributes| && (k < |attributes| ==> attributes[k].value == attribute)
    ensures forall j :: 0 <= j < k ==> attributes[j].value != attribute
  {
    if attributes == [] || attributes[0].value == attribute then 0 else 1 + AttrAt(attributes[1..], attribute)
  }

  /** rc_dict_getattr */
  function GetAttr(attributes: seq<DictAttr>, attribute: word): (r: Option<DictAttr>)
    ensures r.None? <==> forall j :: 0 <= j < |attributes| ==> attributes[j].value != attribute
    ensures r.Some? ==>
              exists k: int :: 0 <= k < |attributes| && attributes[k] == r.value && r.value.value == attribute
                && forall j :: 0 <= j < k ==> attributes[j].value != attribute
  {
    var k := AttrAt(attributes, attribute);
    if k < |attributes| then Some(attributes[k]) else None
  }

  /** rc_dict_getvend(...) != NULL */
  predicate KnownVendor(d: Dictionary, vendorpec: word) {
    exists v <- d.vendors :: v.vendorpec == vendorpec
  }

  // ----- rc_avpair_new and rc_avpair_assign -----

  datatype Value = Octets(octets: seq<byte>) | Number(number: word)

  /** The string buffer after copying the octets to its start. */
  function Filled(octets: seq<byte>): (s: seq<byte>)
    requires |octets| <= AUTH_STRING_LEN
    ensures |s| == AUTH_STRING_LEN + 1 && s[..|octets|] == octets
  {
    octets + Zeros(AUTH_STRING_LEN + 1 - |octets|)
  }

  /** rc_avpair_assign; None is its return value -1.  The caller passes a number
      for the number types and octets for the others. */
  function Assign(p: Pair, v: Value): (r: Option<Pair>)
    requires ValidPair(p.(lvalue := 0))
    ensures r.Some? ==> ValidPair(r.value)
    ensures p.typ.String? && v.Octets? ==> (r.Some? <==> |v.octets| <= AUTH_STRING_LEN)
    ensures p.typ.Ipv6Addr? && v.Octets? ==> (r.Some? <==> |v.octets| == 16)
    ensures p.typ.Ipv6Prefix? && v.Octets? ==> (r.Some? <==> 2 <= |v.octets| <= 18)
    ensures r.Some? && OctetType(p.typ) ==> v.Octets? && View(r.value) == p.(lvalue := |v.octets|, strvalue := v.octets)
    ensures p.typ.Unknown? ==> r.None?
    ensures p.typ.Integer? || p.typ.IpAddr? || p.typ.Date? ==> (r.Some? <==> v.Number?)
    ensures r.Some? && v.Number? ==> r.value == p.(lvalue := v.number)
  {
    match p.typ
    case String =>
      if v.Octets? && |v.octets| <= AUTH_STRING_LEN
      then Some(p.(strvalue := Filled(v.octets), lvalue := |v.octets|)) else None
    case Ipv6Addr =>
      if v.Octets? && |v.octets| == 16
      then Some(p.(strvalue := Filled(v.octets), lvalue := 16)) else None
    case Ipv6Prefix =>
      if v.Octets? && 2 <= |v.octets| <= 18
      then Some(p.(strvalue := Filled(v.octets), lvalue := |v.octets|)) else None
    case Unknown(_) => None
    case _ => if v.Number? then Some(p.(lvalue := v.number)) else None
  }

  /** Digest attributes are rewritten into sub-attributes of attribute 207. */
  predicate IsDigest(attribute: word) {
    PW_DIGEST_REALM <= attribute <= PW_DIGEST_USER_NAME
  }

  function DigestFixup(p: Pair): (r: Pair)
    requires ValidPair(p)
    ensures p.typ.String? ==> ValidPair(r)
    ensures !IsDigest(p.attribute) ==> r == p
    ensures IsDigest(p.attribute) ==> r.lvalue < |r.strvalue| && r.strvalue[r.lvalue] == 0
  {
    if !IsDigest(p.attribute) then p
    else
      var kept := if p.lvalue > AUTH_STRING_LEN - 2 then AUTH_STRING_LEN - 2 else p.lvalue;
      var s := [p.attribute - PW_DIGEST_REALM + 1, kept + 2] + p.strvalue[..kept] + [0] + p.strvalue[kept + 3..];
      p.(attribute := PW_DIGEST_ATTRIBUTES, lvalue := kept + 2, strvalue := s)
  }

  /** rc_avpair_new */
  function New(d: Dictionary, attrid: nat, v: Value, vendorpec: word): (r: Option<Pair>)
    requires attrid < 0x1_0000
  {
    var attribute := Attribute(attrid, vendorpec);
    match GetAttr(d.attributes, attribute)
    case None => None
    case Some(pda) =>
      if vendorpec != 0 && !KnownVendor(d, vendorpec) then None
      else
        match Assign(Pair(pda.name, attribute, pda.typ, 0, Zeros(AUTH_STRING_LEN + 1)), v)
        case None => None
        case Some(p) => Some(DigestFixup(p))
  }

  // ----- The linked list -----

  class ValuePair {
    var pair: Pair
    var next: ValuePair?

    constructor (pair: Pair, next: ValuePair?)
      ensures this.pair == pair && this.next == next
    {
      this.pair, this.next := pair, next;
    }
  }

  /** The i-th node, or null past the end. */
  ghost function At(nodes: seq<ValuePair>, i: nat): (r: ValuePair?) {
    if i < |nodes| then nodes[i] else null
  }

  /** head is the first of exactly these nodes, each linked to the one after. */
  ghost predicate Linked(head: ValuePair?, nodes: seq<ValuePair>)
    reads nodes
  {
    && head == At(nodes, 0)
    && (forall i :: 0 <= i < |nodes| ==> nodes[i].next == At(nodes, i + 1))
    && (forall i, j :: 0 <= i < j < |nodes| ==> nodes[i] != nodes[j])
  }

  ghost function PairsOf(nodes: seq<ValuePair>): (s: seq<Pair>)
    reads nodes
    ensures |s| == |nodes|
    ensures forall i :: 0 <= i < |s| ==> s[i] == nodes[i].pair
  {
    if nodes == [] then [] else [nodes[0].pair] + PairsOf(nodes[1..])
  }

  /** rc_avpair_get: the first pair with this id and vendor. */
  method AvpairGet(head: ValuePair?, attrid: word, vendorpec: nat, ghost nodes: seq<ValuePair>)
    returns (vp: ValuePair?, ghost k: nat)
    requires Linked(head, nodes)
    ensures k <= |nodes| && vp == At(nodes, k)
    ensures forall i :: 0 <= i < k ==> !Matches(nodes[i].pair, attrid, vendorpec)
    ensures vp != null ==> Matches(vp.pair, attrid, vendorpec)
  {
    vp, k := head, 0;
    while vp != null && !(AttrId(vp.pair.attribute) == AttrId(attrid) && Vendor(vp.pair.attribute) == vendorpec)
      invariant k <= |nodes| && vp == At(nodes, k)
      invariant forall i :: 0 <= i < k ==> !Matches(nodes[i].pair, attrid, vendorpec)
      decreases |nodes| - k
    {
      vp, k := vp.next, k + 1;
    }
  }

  predicate Matches(p: Pair, attrid: word, vendorpec: nat) {
    AttrId(p.attribute) == AttrId(attrid) && Vendor(p.attribute) == vendorpec
  }

  ghost function Inserted<T>(s: seq<T>, k: nat, b: T): (r: seq<T>)
    requires k <= |s|
    ensures |r| == |s| + 1 && r[k] == b
    ensures forall i :: 0 <= i < |r| ==> r[i] == if i < k then s[i] else if i == k then b else s[i - 1]
  {
    s[..k] + [b] + s[k..]
  }

  /** rc_avpair_insert: b goes after p, or to the end when p is null.  In an
      empty list b becomes the head whatever p is. */
  method AvpairInsert(a: ValuePair?, p: ValuePair?, b: ValuePair, ghost nodes: seq<ValuePair>)
    returns (head: ValuePair?, ghost k: nat)
    requires Linked(a, nodes) && b !in nodes && b.next == null
    requires p == null || nodes == [] || p in nodes
    modifies nodes, b
    ensures k <= |nodes| && Linked(head, Inserted(nodes, k, b))
    ensures if p == null || nodes == [] then k == |nodes| else k > 0 && nodes[k - 1] == p
    ensures b.pair == old(b.pair) && forall i :: 0 <= i < |nodes| ==> nodes[i].pair == old(nodes[i].pair)
  {
    if a == null {
      return b, 0;
    }
    var thisNode: ValuePair := a;
    k := 0;
    if p == null {
      var vp: ValuePair? := a;
      while vp != null
        invariant k <= |nodes| && vp == At(nodes, k)
        invariant k > 0 ==> thisNode == nodes[k - 1]
        decreases |nodes| - k
      {
        thisNode := vp;
        vp, k := vp.next, k + 1;
      }
    } else {
      ghost var j :| 0 <= j < |nodes| && nodes[j] == p;
      while thisNode != p
        invariant k <= j && thisNode == nodes[k]
        decreases |nodes| - k
      {
        thisNode, k := thisNode.next, k + 1;
      }
      k := k + 1;
    }
    LinkAfter(thisNode, b, k, a, nodes);
    head := a;
  }

  method LinkAfter(thisNode: ValuePair, b: ValuePair, ghost k: nat, ghost head: ValuePair, ghost nodes: seq<ValuePair>)
    requires Linked(head, nodes) && b !in nodes
    requires 0 < k <= |nodes| && thisNode == nodes[k - 1]
    modifies thisNode, b
    ensures Linked(head, Inserted(nodes, k, b))
    ensures b.pair == old(b.pair) && forall i :: 0 <= i < |nodes| ==> nodes[i].pair == old(nodes[i].pair)
  {
    b.next := thisNode.next;
    thisNode.next := b;
    InsertedLinks(head, nodes, k, b);
  }

  lemma InsertedLinks(head: ValuePair?, nodes: seq<ValuePair>, k: nat, b: ValuePair)
    requires 0 < k <= |nodes| && b !in nodes && head == nodes[0]
    requires forall i, j :: 0 <= i < j < |nodes| ==> nodes[i] != nodes[j]
    requires forall i :: 0 <= i < |nodes| && i != k - 1 ==> nodes[i].next == At(nodes, i + 1)
    requires nodes[k - 1].next == b && b.next == At(nodes, k)
    ensures Linked(head, Inserted(nodes, k, b))
  {
    var after := Inserted(nodes, k, b);
    forall i | 0 <= i < |after|
      ensures after[i].next == At(after, i + 1)
    {
      if i < k {
        assert after[i] == nodes[i];
      } else if i > k {
        assert after[i] == nodes[i - 1];
      }
    }
    forall i, j | 0 <= i < j < |after|
      ensures after[i] != after[j]
    {
      if i != k && j != k {
        assert nodes[if i < k then i else i - 1] != nodes[if j < k then j else j - 1];
      }
    }
  }
}
