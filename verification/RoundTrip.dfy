/** Parsing undoes packing, exactly when every pair is one the wire can carry. */
module RoundTrip {
  import opened Bits
  import opened ValuePairs
  import opened Packing
  import opened Parsing

  /** Pairs the statement is about: not User-Password, which is hidden, and not a
      raw Vendor-Specific attribute, whose value is itself parsed. */
  predicate Plain(p: Pair) {
    && ValidPair(p) && !p.typ.Unknown?
    && p.attribute != PW_USER_PASSWORD
    && (Vendor(p.attribute) == 0 ==> p.attribute % 0x100 != PW_VENDOR_SPECIFIC)
  }

  /** The value fits the length octet of the enclosing Vendor-Specific attribute. */
  predicate FitsVendor(p: Pair) {
    Vendor(p.attribute) != 0 && (p.typ.String? || p.typ.Ipv6Prefix?) ==> p.lvalue <= 247
  }

  /** The first entry of the dictionary with the pair's number has its name and
      type. */
  predicate Entered(d: Dictionary, p: Pair) {
    exists k :: 0 <= k < |d.attributes| && d.attributes[k] == DictAttr(p.name, p.attribute, p.typ)
      && forall j :: 0 <= j < k ==> d.attributes[j].value != p.attribute
  }

  lemma EnteredExactly(d: Dictionary, p: Pair)
    ensures Entered(d, p) <==> GetAttr(d.attributes, p.attribute) == Some(DictAttr(p.name, p.attribute, p.typ))
  {
    var k := AttrAt(d.attributes, p.attribute);
    if k < |d.attributes| && d.attributes[k] == DictAttr(p.name, p.attribute, p.typ) {
      assert Entered(d, p);
    }
  }

  /** What the wire can carry: the pair is typed by the dictionary, its id is one
      octet, its vendor is known, and its length is the one its type asks for.
      Dates are not decoded, so only the zero date survives. */
  predicate Carried(d: Dictionary, p: Pair) {
    && AttrId(p.attribute) < 0x100
    && Entered(d, p)
    && (Vendor(p.attribute) != 0 ==> exists v <- d.vendors :: v.vendorpec == Vendor(p.attribute))
    && FitsVendor(p)
    && match p.typ
       case Ipv6Addr => p.lvalue == 16
       case Ipv6Prefix => p.lvalue == 0 || 2 <= p.lvalue <= 18
       case Date => p.lvalue == 0
       case Unknown(_) => false
       case _ => true
  }

  /** What the parser makes of one packed pair. */
  function Returned(d: Dictionary, p: Pair, body: seq<byte>): (r: ValidPairs)
    requires |body| <= AUTH_STRING_LEN
    ensures |r| <= 1
  {
    if Vendor(p.attribute) != 0 && !KnownVendor(d, Vendor(p.attribute)) then []
    else
      match GetAttr(d.attributes, Attribute(p.attribute % 0x100, Vendor(p.attribute)))
      case None => []
      case Some(a) => [Received(a, body)]
  }

  lemma AttributeParts(attribute: word)
    ensures attribute == AttrId(attribute) + Vendor(attribute) * 0x1_0000
    ensures Attribute(attribute % 0x100, Vendor(attribute)) == attribute % 0x100 + Vendor(attribute) * 0x1_0000
    ensures Vendor(Attribute(attribute % 0x100, Vendor(attribute))) == Vendor(attribute)
    ensures attribute % 0x100 == AttrId(attribute) % 0x100
  {
  }

  lemma PlainAttribute(d: Dictionary, p: Pair, s: seq<byte>, body: seq<byte>)
    requires Plain(p) && Vendor(p.attribute) == 0 && |body| <= AUTH_STRING_LEN
    requires s == [p.attribute % 0x100, |body| + 2] + body
    ensures FirstFits(s) && s[1] == |s| && DeepFramed(d, s, 0)
    ensures Meaning(d, s, 0) == Returned(d, p, body)
    ensures LastKnown(d, s, 0) <==> Returned(d, p, body) != []
  {
    hide Received;
    AttributeParts(p.attribute);
    assert s[..s[1]] == s && s[2..] == body;
  }

  lemma VendorPayload(d: Dictionary, p: Pair, s: seq<byte>, body: seq<byte>)
    requires Plain(p) && Vendor(p.attribute) != 0 && |body| <= 247
    requires KnownVendor(d, Vendor(p.attribute))
    requires s == [p.attribute % 0x100, |body| + 2] + body
    ensures DeepFramed(d, s, Vendor(p.attribute))
    ensures MeaningAll(d, s, Vendor(p.attribute)) == Returned(d, p, body)
    ensures LastKnown(d, s, Vendor(p.attribute)) <==> Returned(d, p, body) != []
  {
    hide Received;
    AttributeParts(p.attribute);
    assert s[..s[1]] == s && s[2..] == body && s[s[1]..] == [];
    assert Meaning(d, s, Vendor(p.attribute)) == Returned(d, p, body);
    assert MeaningAll(d, s, Vendor(p.attribute)) == Meaning(d, s, Vendor(p.attribute)) + [];
  }

  lemma VendorAttribute(d: Dictionary, p: Pair, s: seq<byte>, body: seq<byte>)
    requires Plain(p) && Vendor(p.attribute) != 0 && |body| <= 247
    requires s == [PW_VENDOR_SPECIFIC, 8 + |body|] + Be32(Vendor(p.attribute))
                  + ([p.attribute % 0x100, |body| + 2] + body)
    ensures FirstFits(s) && s[1] == |s| && DeepFramed(d, s, 0)
    ensures Meaning(d, s, 0) == Returned(d, p, body)
    ensures LastKnown(d, s, 0) <==> Returned(d, p, body) != []
  {
    hide Be32, FromBe32, Received;
    var inner := [p.attribute % 0x100, |body| + 2] + body;
    Be32RoundTrip(Vendor(p.attribute));
    assert s[..s[1]] == s && s[2..6] == Be32(Vendor(p.attribute)) && s[6..] == inner && s[6..s[1]] == inner;
    if KnownVendor(d, Vendor(p.attribute)) {
      VendorPayload(d, p, inner, body);
    }
  }

  lemma PackedPair(d: Dictionary, p: Pair, secret: seq<byte>, vector: seq<byte>)
    requires Plain(p) && FitsVendor(p)
    ensures var s, body := Packed(p, secret, vector), Payload(p, secret, vector);
            && FirstFits(s) && s[1] == |s| && DeepFramed(d, s, 0)
            && Meaning(d, s, 0) == Returned(d, p, body)
            && (LastKnown(d, s, 0) <==> Returned(d, p, body) != [])
  {
    hide Be32, Received;
    var s, body := Packed(p, secret, vector), Payload(p, secret, vector);
    if Vendor(p.attribute) == 0 {
      PlainAttribute(d, p, s, body);
    } else {
      VendorAttribute(d, p, s, body);
    }
  }

  lemma CarriedExactly(d: Dictionary, p: Pair, secret: seq<byte>, vector: seq<byte>)
    requires Plain(p) && FitsVendor(p)
    ensures Carried(d, p) <==> Views(Returned(d, p, Payload(p, secret, vector))) == [View(p)]
  {
    hide Be32, FromBe32, Entered;
    AttributeParts(p.attribute);
    EnteredExactly(d, p);
    Be32RoundTrip(p.lvalue);
    var r := Returned(d, p, Payload(p, secret, vector));
    if r != [] {
      assert Views(r) == [View(r[0])];
      CarriedKnown(d, p, secret, vector);
    }
  }

  lemma CarriedKnown(d: Dictionary, p: Pair, secret: seq<byte>, vector: seq<byte>)
    requires Plain(p) && FitsVendor(p)
    requires Returned(d, p, Payload(p, secret, vector)) != []
    ensures Carried(d, p) <==> View(Returned(d, p, Payload(p, secret, vector))[0]) == View(p)
  {
    hide Be32, FromBe32, Entered, GetAttr, Payload, Received, AttrId, Attribute, HideBlocks;
    AttributeParts(p.attribute);
    EnteredExactly(d, p);
    Be32RoundTrip(p.lvalue);
    PayloadCases(p, secret, vector);
    var body := Payload(p, secret, vector);
    var a := GetAttr(d.attributes, Attribute(p.attribute % 0x100, Vendor(p.attribute))).value;
    assert a.value == p.attribute <==> AttrId(p.attribute) < 0x100;
    ReceivedView(a, body);
  }

  lemma ReceivedView(a: DictAttr, value: seq<byte>)
    requires |value| <= AUTH_STRING_LEN
    ensures var v := View(Received(a, value));
            && v.name == a.name && v.attribute == a.value && v.typ == a.typ
            && (a.typ.String? ==> v.lvalue == |value| && v.strvalue == value)
            && (a.typ.Integer? || a.typ.IpAddr? ==>
                  v.strvalue == [] && v.lvalue == if |value| == 4 then FromBe32(value) else 0)
            && (a.typ.Ipv6Addr? ==> v.lvalue == |v.strvalue| && v.strvalue == if |value| == 16 then value else [])
            && (a.typ.Ipv6Prefix? ==>
                  v.lvalue == |v.strvalue| && v.strvalue == if 2 <= |value| <= 18 then value else [])
            && (a.typ.Date? ==> v.lvalue == 0 && v.strvalue == [])
  {
    hide FromBe32;
  }

  // ----- Whole lists -----

  lemma {:induction false} PackedListMeaning(d: Dictionary, l: ValidPairs, secret: seq<byte>, vector: seq<byte>)
    requires l != [] && forall p <- l :: Plain(p) && FitsVendor(p)
    ensures var s := PackedAll(l, secret, vector);
            && DeepFramed(d, s, 0)
            && MeaningAll(d, s, 0) == ReturnedAll(d, l, secret, vector)
            && (LastKnown(d, s, 0) <==> Returned(d, l[|l| - 1], Payload(l[|l| - 1], secret, vector)) != [])
  {
    hide Packed, Returned, Payload, Meaning, IsNested;
    var first, rest := Packed(l[0], secret, vector), PackedAll(l[1..], secret, vector);
    var s := first + rest;
    PackedPair(d, l[0], secret, vector);
    assert s[..s[1]] == first && s[s[1]..] == rest;
    if l[1..] == [] {
      assert s == first && rest == [];
      assert MeaningAll(d, s, 0) == Meaning(d, first, 0) + MeaningAll(d, [], 0);
    } else {
      PackedListMeaning(d, l[1..], secret, vector);
      FirstAndRest(d, s, 0);
    }
  }

  function ReturnedAll(d: Dictionary, l: ValidPairs, secret: seq<byte>, vector: seq<byte>): (r: ValidPairs)
    ensures |r| <= |l|
  {
    if l == [] then []
    else Returned(d, l[0], Payload(l[0], secret, vector)) + ReturnedAll(d, l[1..], secret, vector)
  }

  lemma {:induction false} ReturnedExactly(d: Dictionary, l: ValidPairs, secret: seq<byte>, vector: seq<byte>)
    requires forall p <- l :: Plain(p) && FitsVendor(p)
    ensures Views(ReturnedAll(d, l, secret, vector)) == Views(l) <==> forall p <- l :: Carried(d, p)
  {
    hide Returned, Payload, Carried, View;
    if l != [] {
      var first := Returned(d, l[0], Payload(l[0], secret, vector));
      var rest := ReturnedAll(d, l[1..], secret, vector);
      CarriedExactly(d, l[0], secret, vector);
      ReturnedExactly(d, l[1..], secret, vector);
      ViewsConcat(first, rest);
      assert l == [l[0]] + l[1..];
      assert Views(l) == [View(l[0])] + Views(l[1..]);
      if first == [] {
        assert |Views(first + rest)| < |Views(l)|;
      } else {
        assert Views(first + rest)[0] == Views(first)[0];
        assert Views(first + rest)[1..] == Views(rest);
        assert Views(l)[0] == View(l[0]) && Views(l)[1..] == Views(l[1..]);
      }
    }
  }

  // ----- Values too long for their Vendor-Specific attribute -----

  lemma {:induction false} GenFitsVendor(d: Dictionary, pair: ValidPairs, s: seq<byte>, vendorpec: word)
    requires vendorpec == 0 || |s| <= 249
    requires forall p <- pair :: FitsVendor(p)
    ensures forall p <- Gen(d, pair, s, vendorpec) :: FitsVendor(p)
    decreases |s|, 1
  {
    if FirstFits(s) {
      if |s| == s[1] {
        GenFirstFitsVendor(d, pair, s, vendorpec);
      } else {
        GenFitsVendor(d, pair, s[s[1]..], vendorpec);
        var tail := Gen(d, pair, s[s[1]..], vendorpec);
        GenFirstFitsVendor(d, tail, s[..s[1]], vendorpec);
      }
    }
  }

  lemma {:induction false} GenFirstFitsVendor(d: Dictionary, pair: ValidPairs, s: seq<byte>, vendorpec: word)
    requires FirstFits(s) && s[1] == |s|
    requires vendorpec == 0 || |s| <= 249
    requires forall p <- pair :: FitsVendor(p)
    ensures forall p <- GenFirst(d, pair, s, vendorpec) :: FitsVendor(p)
    decreases |s|, 0
  {
    hide FromBe32;
    var attribute := Attribute(s[0], vendorpec);
    var value := s[2..];
    if attribute == PW_VENDOR_SPECIFIC {
      if |value| >= 4 && KnownVendor(d, FromBe32(value[..4])) {
        GenFitsVendor(d, pair, value[4..], FromBe32(value[..4]));
      }
    } else {
      var attr := GetAttr(d.attributes, attribute);
      if attr.Some? {
        ReceivedView(attr.value, value);
        assert vendorpec == 0 ==> Vendor(attribute) == 0;
      }
    }
  }

  /** rc_avpair_gen undoes rc_pack_list if and only if every pair of the list is
      one the wire can carry: same pairs, same order. */
  lemma RoundTripExactly(d: Dictionary, l: ValidPairs, secret: seq<byte>, vector: seq<byte>)
    requires l != [] && forall p <- l :: Plain(p)
    ensures Views(Gen(d, [], PackedAll(l, secret, vector), 0)) == Views(l) <==> forall p <- l :: Carried(d, p)
  {
    hide Gen, PackedAll, View, Returned, Payload;
    var s := PackedAll(l, secret, vector);
    var back := Gen(d, [], s, 0);
    if exists p <- l :: !FitsVendor(p) {
      var i :| 0 <= i < |l| && !FitsVendor(l[i]);
      GenFitsVendor(d, [], s, 0);
      if Views(back) == Views(l) {
        assert View(back[i]) == View(l[i]);
        SameViewFitsVendor(back[i], l[i]);
      }
      assert !Carried(d, l[i]);
    } else {
      PackedListMeaning(d, l, secret, vector);
      GenMeaning(d, [], s, 0);
      ReturnedExactly(d, l, secret, vector);
      var last := l[|l| - 1];
      CarriedExactly(d, last, secret, vector);
      if LastKnown(d, s, 0) {
        assert MeaningAll(d, s, 0) + [] == MeaningAll(d, s, 0);
      } else {
        assert Views([]) != [View(last)];
      }
    }
  }

  lemma SameViewFitsVendor(p: Pair, q: Pair)
    requires ValidPair(p) && ValidPair(q) && View(p) == View(q)
    ensures FitsVendor(p) == FitsVendor(q)
  {
  }

  // ----- Pairs made by rc_avpair_new -----

  /** A pair built through the dictionary is carried, unless it is a date, its id
      is above 255, or its value is too long for a Vendor-Specific attribute. */
  lemma NewIsCarried(d: Dictionary, attrid: nat, v: Value, vendorpec: word)
    requires attrid < 0x100 && vendorpec < 0x1_0000
    requires New(d, attrid, v, vendorpec).Some?
    ensures var p := New(d, attrid, v, vendorpec).value;
            && ValidPair(p) && !p.typ.Unknown?
            && (FitsVendor(p) && !p.typ.Date? ==> Carried(d, p))
            && (p.typ.Date? ==> (Carried(d, p) <==> v == Number(0)))
  {
    hide Entered;
    EnteredExactly(d, New(d, attrid, v, vendorpec).value);
  }

  /** The packer's output is what the walk accepts. */
  lemma {:induction false} WalkAcceptsPacked(l: ValidPairs, secret: seq<byte>, vector: seq<byte>)
    requires forall p <- l :: ValidPair(p) && KnownType(p) && FitsVendor(p)
    requires forall p <- l :: Vendor(p.attribute) == 0 ==> p.attribute % 0x100 != 0
    ensures WalkAccepts(PackedAll(l, secret, vector))
    ensures CountedAll(l) == |PackedAll(l, secret, vector)|
  {
    hide Packed, Counted;
    CountedExactly(l, secret, vector);
    if l != [] {
      var first, rest := Packed(l[0], secret, vector), PackedAll(l[1..], secret, vector);
      PackedFits(l[0], secret, vector);
      assert (first + rest)[(first + rest)[1]..] == rest;
      WalkAcceptsPacked(l[1..], secret, vector);
    }
  }

  lemma PackedFits(p: Pair, secret: seq<byte>, vector: seq<byte>)
    requires ValidPair(p) && KnownType(p) && FitsVendor(p)
    requires Vendor(p.attribute) == 0 ==> p.attribute % 0x100 != 0
    ensures var s := Packed(p, secret, vector); FirstFits(s) && s[1] == |s| && s[0] != 0
  {
    hide Be32, HideBlocks;
    HideKeepsLength(|PaddedPassword(p)| / 16, PaddedPassword(p), secret, vector);
  }
}
