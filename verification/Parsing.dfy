/** Parsing RADIUS attributes back into pairs: the recursive generator of
    avpair.c and the iterative walk of sendserver.c over the same octets. */
module Parsing {
  import opened Bits
  import opened ValuePairs
  import opened Packing

  // ----- rc_avpair_gen -----

  /** The pair made for a known attribute.  A value of the wrong length, and any
      date, is reported but the pair, zeroed, stays in the list. */
  function Received(a: DictAttr, value: seq<byte>): (p: Pair)
    requires |value| <= AUTH_STRING_LEN
    ensures ValidPair(p)
  {
    var blank := Pair(a.name, a.value, a.typ, 0, Filled([]));
    match a.typ
    case String => blank.(strvalue := Filled(value), lvalue := |value|)
    case Integer => if |value| == 4 then blank.(lvalue := FromBe32(value)) else blank
    case IpAddr => if |value| == 4 then blank.(lvalue := FromBe32(value)) else blank
    case Ipv6Addr => if |value| == 16 then blank.(strvalue := Filled(value), lvalue := 16) else blank
    case Ipv6Prefix => if 2 <= |value| <= 18 then blank.(strvalue := Filled(value), lvalue := |value|) else blank
    case _ => blank
  }

  /** The length checks on the first attribute. */
  predicate FirstFits(s: seq<byte>) { |s| >= 2 && 2 <= s[1] <= |s| }

  /** rc_avpair_gen.  The empty list stands for NULL, which is what the code
      returns both for a failure and for a list that stayed empty. */
  function Gen(d: Dictionary, pair: ValidPairs, s: seq<byte>, vendorpec: word): (r: ValidPairs)
    decreases |s|, 1
  {
    if !FirstFits(s) then []
    else if |s| == s[1] then GenFirst(d, pair, s, vendorpec)
    else
      var tail := Gen(d, pair, s[s[1]..], vendorpec);
      if tail == [] then [] else GenFirst(d, tail, s[..s[1]], vendorpec)
  }

  /** The part after the recursive call: s is exactly one attribute. */
  function GenFirst(d: Dictionary, pair: ValidPairs, s: seq<byte>, vendorpec: word): (r: ValidPairs)
    requires FirstFits(s) && s[1] == |s|
    decreases |s|, 0
  {
    var attribute := Attribute(s[0], vendorpec);
    var value := s[2..];
    if attribute == PW_VENDOR_SPECIFIC then
      if |value| < 4 then pair
      else
        var vendor := FromBe32(value[..4]);
        if !KnownVendor(d, vendor) then pair else Gen(d, pair, value[4..], vendor)
    else
      match GetAttr(d.attributes, attribute)
      case None => pair
      case Some(attr) => [Received(attr, value)] + pair
  }

  // ----- What the octets mean, attribute by attribute -----

  /** Every attribute, at this level, fits what is left. */
  predicate Framed(s: seq<byte>)
    decreases |s|
  {
    s == [] || (FirstFits(s) && Framed(s[s[1]..]))
  }

  /** The pairs one attribute stands for: none when it is unknown, those of the
      payload when it is Vendor-Specific. */
  function Meaning(d: Dictionary, s: seq<byte>, vendorpec: word): (r: ValidPairs)
    requires FirstFits(s) && s[1] == |s|
    decreases |s|, 0
  {
    var attribute := Attribute(s[0], vendorpec);
    if attribute == PW_VENDOR_SPECIFIC then
      if |s| < 6 || !KnownVendor(d, FromBe32(s[2..6])) then []
      else MeaningAll(d, s[6..], FromBe32(s[2..6]))
    else
      match GetAttr(d.attributes, attribute)
      case None => []
      case Some(attr) => [Received(attr, s[2..])]
  }

  function MeaningAll(d: Dictionary, s: seq<byte>, vendorpec: word): (r: ValidPairs)
    decreases |s|, 1
  {
    if !FirstFits(s) then [] else Meaning(d, s[..s[1]], vendorpec) + MeaningAll(d, s[s[1]..], vendorpec)
  }

  /** Framed, and so is the payload of every attribute of a known vendor, none
      of which is empty. */
  predicate DeepFramed(d: Dictionary, s: seq<byte>, vendorpec: word)
    decreases |s|
  {
    FirstFits(s)
    && (IsNested(d, s[..s[1]], vendorpec) ==> DeepFramed(d, s[6..s[1]], FromBe32(s[2..6])))
    && (s[1] < |s| ==> DeepFramed(d, s[s[1]..], vendorpec))
  }

  /** A Vendor-Specific attribute whose payload is parsed. */
  predicate IsNested(d: Dictionary, s: seq<byte>, vendorpec: word)
    requires FirstFits(s) && s[1] == |s|
  {
    Attribute(s[0], vendorpec) == PW_VENDOR_SPECIFIC && |s| >= 6 && KnownVendor(d, FromBe32(s[2..6]))
  }

  /** The last attribute, followed into its payload, is in the dictionary. */
  predicate LastKnown(d: Dictionary, s: seq<byte>, vendorpec: word)
    requires DeepFramed(d, s, vendorpec)
    decreases |s|
  {
    if s[1] < |s| then LastKnown(d, s[s[1]..], vendorpec)
    else if IsNested(d, s[..s[1]], vendorpec) then LastKnown(d, s[6..s[1]], FromBe32(s[2..6]))
    else Attribute(s[0], vendorpec) != PW_VENDOR_SPECIFIC && GetAttr(d.attributes, Attribute(s[0], vendorpec)).Some?
  }

  lemma {:induction false} LastKnownIsSome(d: Dictionary, s: seq<byte>, vendorpec: word)
    requires DeepFramed(d, s, vendorpec) && LastKnown(d, s, vendorpec)
    ensures MeaningAll(d, s, vendorpec) != []
    decreases |s|
  {
    if s[1] < |s| {
      LastKnownIsSome(d, s[s[1]..], vendorpec);
    } else {
      assert s[..s[1]] == s;
      if IsNested(d, s, vendorpec) {
        LastKnownIsSome(d, s[6..s[1]], FromBe32(s[2..6]));
      }
    }
  }

  /** What rc_avpair_gen returns, for every input.  If anything that is looked at
      is badly framed the whole list is lost.  Otherwise the known attributes
      come back in order in front of the list passed in, unknown ones are
      skipped - except that nothing at all comes back when there was no list
      and the last attribute is not a known one. */
  lemma {:induction false} GenMeaning(d: Dictionary, pair: ValidPairs, s: seq<byte>, vendorpec: word)
    ensures DeepFramed(d, s, vendorpec) ==>
              Gen(d, pair, s, vendorpec)
              == if pair != [] || LastKnown(d, s, vendorpec) then MeaningAll(d, s, vendorpec) + pair else []
    ensures !DeepFramed(d, s, vendorpec) ==> Gen(d, pair, s, vendorpec) == []
    decreases |s|, 1
  {
    hide Meaning, GenFirst, IsNested;
    if FirstFits(s) {
      var first, rest := s[..s[1]], s[s[1]..];
      if rest == [] {
        assert first == s;
        assert MeaningAll(d, s, vendorpec) == Meaning(d, s, vendorpec) + MeaningAll(d, [], vendorpec);
        GenFirstMeaning(d, pair, s, vendorpec);
      } else {
        FirstAndRest(d, s, vendorpec);
        GenMeaning(d, pair, rest, vendorpec);
        var tail := Gen(d, pair, rest, vendorpec);
        if tail != [] {
          GenFirstMeaning(d, tail, first, vendorpec);
          assert Meaning(d, first, vendorpec) + (MeaningAll(d, rest, vendorpec) + pair)
              == MeaningAll(d, s, vendorpec) + pair;
        } else if DeepFramed(d, rest, vendorpec) && LastKnown(d, rest, vendorpec) {
          LastKnownIsSome(d, rest, vendorpec);
        }
      }
    }
  }

  lemma FirstAndRest(d: Dictionary, s: seq<byte>, vendorpec: word)
    requires FirstFits(s) && s[1] < |s|
    ensures FirstFits(s[..s[1]])
    ensures DeepFramed(d, s, vendorpec) <==> DeepFramed(d, s[..s[1]], vendorpec) && DeepFramed(d, s[s[1]..], vendorpec)
    ensures DeepFramed(d, s, vendorpec) ==> LastKnown(d, s, vendorpec) == LastKnown(d, s[s[1]..], vendorpec)
  {
    var first := s[..s[1]];
    assert first[..first[1]] == first;
    if |first| >= 6 {
      assert first[2..6] == s[2..6] && first[6..first[1]] == s[6..s[1]];
    }
  }

  lemma {:induction false} GenFirstMeaning(d: Dictionary, pair: ValidPairs, s: seq<byte>, vendorpec: word)
    requires FirstFits(s) && s[1] == |s|
    ensures DeepFramed(d, s, vendorpec) ==>
              GenFirst(d, pair, s, vendorpec)
              == if pair != [] || LastKnown(d, s, vendorpec) then Meaning(d, s, vendorpec) + pair else []
    ensures !DeepFramed(d, s, vendorpec) ==> GenFirst(d, pair, s, vendorpec) == []
    decreases |s|, 0
  {
    assert s[..s[1]] == s;
    if IsNested(d, s, vendorpec) {
      assert s[2..][..4] == s[2..6] && s[2..][4..] == s[6..] == s[6..s[1]];
      GenMeaning(d, pair, s[6..], FromBe32(s[2..6]));
    }
  }

  /** u is exactly one attribute. */
  predicate OneAttribute(u: seq<byte>) { FirstFits(u) && u[1] == |u| }

  lemma FirstOfSum(d: Dictionary, u: seq<byte>, rest: seq<byte>, vendorpec: word)
    requires OneAttribute(u) && rest != []
    ensures DeepFramed(d, u + rest, vendorpec) <==> DeepFramed(d, u, vendorpec) && DeepFramed(d, rest, vendorpec)
    ensures DeepFramed(d, u + rest, vendorpec) ==> LastKnown(d, u + rest, vendorpec) == LastKnown(d, rest, vendorpec)
    ensures MeaningAll(d, u + rest, vendorpec) == Meaning(d, u, vendorpec) + MeaningAll(d, rest, vendorpec)
  {
    hide DeepFramed, LastKnown, Meaning, IsNested;
    var s := u + rest;
    assert s[..s[1]] == u && s[s[1]..] == rest;
    FirstAndRest(d, s, vendorpec);
  }

  /** What an attribute without a meaning changes in a longer text. */
  lemma {:induction false} Without(d: Dictionary, before: seq<byte>, u: seq<byte>, rest: seq<byte>, vendorpec: word)
    requires Framed(before) && OneAttribute(u) && rest != [] && Meaning(d, u, vendorpec) == []
    ensures var s, t := before + u + rest, before + rest;
            && (DeepFramed(d, s, vendorpec) <==> DeepFramed(d, u, vendorpec) && DeepFramed(d, t, vendorpec))
            && (DeepFramed(d, s, vendorpec) ==> LastKnown(d, s, vendorpec) == LastKnown(d, t, vendorpec))
            && MeaningAll(d, s, vendorpec) == MeaningAll(d, t, vendorpec)
    decreases |before|
  {
    hide DeepFramed, LastKnown, Meaning, MeaningAll, IsNested;
    if before == [] {
      assert before + u + rest == u + rest && before + rest == rest;
      FirstOfSum(d, u, rest, vendorpec);
      assert [] + MeaningAll(d, rest, vendorpec) == MeaningAll(d, rest, vendorpec);
    } else {
      var first, more := before[..before[1]], before[before[1]..];
      assert before + u + rest == first + (more + u + rest) && before + rest == first + (more + rest);
      Without(d, more, u, rest, vendorpec);
      FirstOfSum(d, first, more + u + rest, vendorpec);
      FirstOfSum(d, first, more + rest, vendorpec);
    }
  }

  /** An attribute that stands for nothing, anywhere but at the end, changes
      nothing; unless its payload is parsed and badly framed, which loses all. */
  lemma UnknownIsSkipped(d: Dictionary, pair: ValidPairs, before: seq<byte>, u: seq<byte>, rest: seq<byte>,
                         vendorpec: word)
    requires Framed(before) && OneAttribute(u) && rest != [] && Meaning(d, u, vendorpec) == []
    ensures Gen(d, pair, before + u + rest, vendorpec)
         == if DeepFramed(d, u, vendorpec) then Gen(d, pair, before + rest, vendorpec) else []
  {
    hide DeepFramed, LastKnown, Meaning, MeaningAll, Gen, Framed;
    Without(d, before, u, rest, vendorpec);
    GenMeaning(d, pair, before + u + rest, vendorpec);
    GenMeaning(d, pair, before + rest, vendorpec);
  }

  /** At the end it does: the known pair in front of it is lost. */
  lemma UnknownLast()
    ensures var d := Dictionary([DictAttr("User-Name", 1, String)], [], []);
            && |Gen(d, [], [1, 3, 65], 0)| == 1
            && Gen(d, [], [1, 3, 65] + [99, 2], 0) == []
  {
    var d := Dictionary([DictAttr("User-Name", 1, String)], [], []);
    var s: seq<byte> := [1, 3, 65, 99, 2];
    assert [1, 3, 65] + [99, 2] == s && s[3..] == [99, 2] && s[..3] == [1, 3, 65];
    assert GetAttr(d.attributes[1..], 99) == None;
    assert GetAttr(d.attributes, 99) == None;
    assert Gen(d, [], [99, 2], 0) == GenFirst(d, [], [99, 2], 0);
    assert Gen(d, [], [1, 3, 65], 0) == GenFirst(d, [], [1, 3, 65], 0);
  }

  /** rc_avpair_gen on the heap: new nodes are linked in front of the list, which
      is dropped when parsing fails. */
  method AvpairGen(d: Dictionary, pair: ValuePair?, ptr: seq<byte>, vendorpec: word, ghost nodes: seq<ValuePair>)
    returns (r: ValuePair?, ghost after: seq<ValuePair>)
    requires Linked(pair, nodes) && forall p <- PairsOf(nodes) :: ValidPair(p)
    ensures Linked(r, after)
    ensures PairsOf(after) == Gen(d, PairsOf(nodes), ptr, vendorpec)
    ensures r == null <==> Gen(d, PairsOf(nodes), ptr, vendorpec) == []
    decreases |ptr|
  {
    hide Received, Linked, PairsOf, FromBe32;
    NothingLinked();
    if |ptr| < 2 {
      return null, [];
    }
    var attrlen: nat := ptr[1];
    if |ptr| < attrlen || attrlen < 2 {
      return null, [];
    }
    r, after := pair, nodes;
    if |ptr| != attrlen {
      r, after := AvpairGen(d, pair, ptr[attrlen..], vendorpec, nodes);
      if r == null {
        return;
      }
    } else {
      assert ptr[..attrlen] == ptr;
    }
    NullIsEmpty(r, after);
    var attribute := Attribute(ptr[0], vendorpec);
    var value := ptr[2..attrlen];
    assert ptr[..attrlen][2..] == value;
    if attribute == PW_VENDOR_SPECIFIC {
      if |value| < 4 {
        return;
      }
      var vendor := FromBe32(value[..4]);
      if !KnownVendor(d, vendor) {
        return;
      }
      r, after := AvpairGen(d, r, value[4..], vendor, after);
      return;
    }
    var attr := GetAttr(d.attributes, attribute);
    if attr.None? {
      return;
    }
    r, after := Prepend(Received(attr.value, value), r, after);
  }

  lemma NothingLinked()
    ensures Linked(null, []) && PairsOf([]) == []
  {
  }

  lemma NullIsEmpty(head: ValuePair?, nodes: seq<ValuePair>)
    requires Linked(head, nodes)
    ensures head == null <==> PairsOf(nodes) == []
  {
  }

  method Prepend(p: Pair, pair: ValuePair?, ghost nodes: seq<ValuePair>)
    returns (r: ValuePair, ghost after: seq<ValuePair>)
    requires Linked(pair, nodes)
    ensures Linked(r, after) && PairsOf(after) == [p] + PairsOf(nodes)
  {
    r := new ValuePair(p, pair);
    after := [r] + nodes;
    forall i | 0 <= i < |after|
      ensures after[i].next == At(after, i + 1)
    {
      assert At(after, i + 1) == At(nodes, i);
      assert i > 0 ==> after[i] == nodes[i - 1];
    }
    assert after[1..] == nodes;
  }

  // ----- The walk of rc_send_server -----

  predicate WalkAccepts(s: seq<byte>)
    decreases |s|
  {
    s == [] || (FirstFits(s) && s[0] != 0 && WalkAccepts(s[s[1]..]))
  }

  /** The walk comes to a single last octet, which it reads together with the
      octet behind it. */
  predicate LoneLast(s: seq<byte>)
    decreases |s|
  {
    s != [] && s[0] != 0 && (|s| == 1 || (2 <= s[1] <= |s| && LoneLast(s[s[1]..])))
  }

  /** The check of a received packet before anything else is done with it. */
  method Walk(packet: array<byte>, length: nat) returns (ok: bool)
    requires length <= packet.Length
    requires length == packet.Length && length > AUTH_HDR_LEN ==> !LoneLast(packet[AUTH_HDR_LEN..length])
    ensures ok <==> (length > AUTH_HDR_LEN ==> WalkAccepts(packet[AUTH_HDR_LEN..length]))
  {
    var attr := AUTH_HDR_LEN;
    while attr < length
      invariant AUTH_HDR_LEN <= attr && (length > AUTH_HDR_LEN ==> attr <= length)
      invariant length > AUTH_HDR_LEN ==>
                  (WalkAccepts(packet[AUTH_HDR_LEN..length]) <==> WalkAccepts(packet[attr..length]))
      invariant length == packet.Length && length > AUTH_HDR_LEN ==> !LoneLast(packet[attr..length])
      decreases length - attr
    {
      ghost var rest := packet[attr..length];
      if packet[attr] == 0 {
        return false;
      }
      if packet[attr + 1] < 2 {
        return false;
      }
      if attr + packet[attr + 1] > length {
        return false;
      }
      assert rest[rest[1]..] == packet[attr + packet[attr + 1]..length];
      attr := attr + packet[attr + 1];
    }
    return true;
  }

  predicate NoZeroId(s: seq<byte>)
    decreases |s|
  {
    FirstFits(s) ==> s[0] != 0 && NoZeroId(s[s[1]..])
  }

  predicate PayloadsFramed(d: Dictionary, s: seq<byte>, vendorpec: word)
    decreases |s|
  {
    FirstFits(s) ==>
      && (IsNested(d, s[..s[1]], vendorpec) ==> DeepFramed(d, s[6..s[1]], FromBe32(s[2..6])))
      && PayloadsFramed(d, s[s[1]..], vendorpec)
  }

  lemma {:induction false} WalkExactly(s: seq<byte>)
    ensures WalkAccepts(s) <==> Framed(s) && NoZeroId(s)
    decreases |s|
  {
    if FirstFits(s) { WalkExactly(s[s[1]..]); }
  }

  lemma {:induction false} FramedTopLevel(d: Dictionary, s: seq<byte>, vendorpec: word)
    requires s != []
    ensures DeepFramed(d, s, vendorpec) <==> Framed(s) && PayloadsFramed(d, s, vendorpec)
    decreases |s|
  {
    if FirstFits(s) && s[1] < |s| { FramedTopLevel(d, s[s[1]..], vendorpec); }
  }

  /** On octets the walk accepted the parser never meets a bad length at the top
      level: only the payload of a known vendor, or a last attribute that is not
      known, can make it come back empty-handed. */
  lemma WalkedIsParsed(d: Dictionary, s: seq<byte>)
    requires WalkAccepts(s) && s != []
    ensures Gen(d, [], s, 0)
         == if PayloadsFramed(d, s, 0) && DeepFramed(d, s, 0) && LastKnown(d, s, 0) then MeaningAll(d, s, 0) else []
    ensures PayloadsFramed(d, s, 0) ==> DeepFramed(d, s, 0)
  {
    WalkExactly(s);
    FramedTopLevel(d, s, 0);
    GenMeaning(d, [], s, 0);
    if DeepFramed(d, s, 0) {
      assert MeaningAll(d, s, 0) + [] == MeaningAll(d, s, 0);
    }
  }
}
