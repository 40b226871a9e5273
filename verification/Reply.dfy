/** The reply side of rc_send_server: length checks, attribute walk, Response
    Authenticator (section 3 of RFC 2865) and parsing, over one packet buffer. */
module Reply {
  import opened Bits
  import opened ValuePairs
  import opened Packing
  import opened Parsing
  import opened RoundTrip
  import Md5Spec
  import Md5

  const OK_RC := 0
  const ERROR_RC := -1
  const BADRESP_RC := -2
  const REJECT_RC := 2

  const PW_ACCESS_ACCEPT := 2
  const PW_ACCESS_REJECT := 3
  const PW_ACCOUNTING_RESPONSE := 5
  const PW_PASSWORD_ACK := 8
  const PW_PASSWORD_REJECT := 9

  const BUFFER_LEN := 8192

  /** ntohs(auth->length) */
  function HeaderLength(s: seq<byte>): (n: nat)
    requires |s| >= 4
    ensures n < 0x1_0000
  {
    var high: word, low: word := s[2], s[3];
    high * 0x100 + low
  }

  /** The Response Authenticator of a packet answering a request with this vector. */
  function Authenticator(s: seq<byte>, vector: seq<byte>, secret: seq<byte>): (octets: seq<byte>)
    requires 20 <= HeaderLengthOf(s) <= |s|
  {
    Md5Spec.Digest(s[..4] + vector + s[20..HeaderLength(s)] + secret)
  }

  function HeaderLengthOf(s: seq<byte>): (n: nat) { if |s| >= 4 then HeaderLength(s) else 0 }

  predicate LengthsFit(s: seq<byte>, bufferlen: nat, secret: seq<byte>) {
    20 <= HeaderLengthOf(s) <= 4096 && HeaderLengthOf(s) + |secret| <= bufferlen
  }

  predicate Authentic(s: seq<byte>, bufferlen: nat, secret: seq<byte>, vector: seq<byte>, seqNbr: byte)
    requires |s| >= 20 && bufferlen <= |s|
  {
    LengthsFit(s, bufferlen, secret) && s[1] == seqNbr && s[4..20] == Authenticator(s, vector, secret)
  }

  /** The request vector and the secret spliced into the packet. */
  function Spliced(s: seq<byte>, n: nat, vector: seq<byte>, secret: seq<byte>): (octets: seq<byte>)
    requires 20 <= n && n + |secret| <= |s|
  {
    s[..4] + vector + s[20..n] + secret + s[n + |secret|..]
  }

  /** rc_check_reply */
  method CheckReply(auth: array<byte>, bufferlen: nat, secret: seq<byte>, vector: seq<byte>, seqNbr: byte)
    returns (result: int)
    requires auth.Length >= AUTH_HDR_LEN && bufferlen <= auth.Length && bufferlen < 0x1000_0000
    requires |vector| == AUTH_VECTOR_LEN
    modifies auth
    ensures result == if Authentic(old(auth[..]), bufferlen, secret, vector, seqNbr) then 0 else -2
    ensures auth[..] == var s := old(auth[..]);
              if LengthsFit(s, bufferlen, secret) && s[1] == seqNbr
              then Spliced(s, HeaderLength(s), vector, secret) else s
  {
    hide Md5Spec.Digest, Overlay;
    ghost var s := auth[..];
    var totallen := HeaderLength(auth[..4]);
    assert totallen == HeaderLength(s);
    var secretlen := |secret|;
    if totallen < 20 || totallen > 4096 {
      return BADRESP_RC;
    }
    if totallen + secretlen > bufferlen {
      return BADRESP_RC;
    }
    if auth[1] != seqNbr {
      return BADRESP_RC;
    }
    var replyDigest := auth[4..20];
    Put(auth, 4, vector);
    ghost var t := auth[..];
    Put(auth, totallen, secret);
    OverlayParts(s, 4, vector);
    OverlayParts(t, totallen, secret);
    SpliceSteps(s, t, auth[..], totallen, vector, secret);
    var calcDigest := Md5.Md5Calc(auth[..totallen + secretlen]);
    if replyDigest != calcDigest {
      return BADRESP_RC;
    }
    return OK_RC;
  }

  lemma SpliceSteps(s: seq<byte>, t: seq<byte>, u: seq<byte>, n: nat, vector: seq<byte>, secret: seq<byte>)
    requires |s| == |t| == |u| && 20 <= n && n + |secret| <= |s| && |vector| == 16
    requires t[..4] == s[..4] && t[4..20] == vector && t[20..] == s[20..]
    requires u[..n] == t[..n] && u[n..n + |secret|] == secret && u[n + |secret|..] == t[n + |secret|..]
    ensures u == Spliced(s, n, vector, secret)
    ensures u[..n + |secret|] == s[..4] + vector + s[20..n] + secret
  {
    assert t == t[..4] + t[4..20] + t[20..];
    assert t[..n] == s[..4] + vector + s[20..n];
    assert t[n + |secret|..] == s[n + |secret|..];
    assert u == u[..n] + u[n..n + |secret|] + u[n + |secret|..];
    assert u[..n + |secret|] == u[..n] + u[n..n + |secret|];
  }

  /** What the code of an authentic reply means: Access-Accept,
      Accounting-Response and Password-Ack are good, Access-Reject and
      Password-Reject are rejections, anything else is a bad response. */
  function Verdict(code: byte): (n: int)
    ensures n == 0 <==> code == 2 || code == 5 || code == 8
    ensures n == 2 <==> code == 3 || code == 9
    ensures n == 0 || n == 2 || n == -2
  {
    if code == PW_ACCESS_ACCEPT || code == PW_PASSWORD_ACK || code == PW_ACCOUNTING_RESPONSE then OK_RC
    else if code == PW_ACCESS_REJECT || code == PW_PASSWORD_REJECT then REJECT_RC
    else BADRESP_RC
  }

  /** The attributes of the packet, as far as its own length says. */
  function Attributes(s: seq<byte>): (octets: seq<byte>) {
    if AUTH_HDR_LEN < HeaderLengthOf(s) <= |s| then s[AUTH_HDR_LEN..HeaderLength(s)] else []
  }

  /** rc_send_server from the return of recvfrom on.  The pairs are parsed after
      the authenticator was checked, from the buffer the check has spliced the
      vector and the secret into, whether or not the check succeeded. */
  method ReceiveReply(d: Dictionary, packet: array<byte>, received: int, secret: seq<byte>, vector: seq<byte>,
                      seqNbr: byte)
    returns (result: int, parsed: bool, pairs: ValuePair?, ghost nodes: seq<ValuePair>)
    requires packet.Length == 8192 && received <= packet.Length && |vector| == AUTH_VECTOR_LEN
    requires received == HeaderLengthOf(packet[..]) == packet.Length ==> !LoneLast(packet[AUTH_HDR_LEN..])
    modifies packet
    ensures var s := old(packet[..]);
            if received < 20 || received < s[2] as int * 256 + s[3] || !WalkAccepts(Attributes(s))
            then result == -1 && !parsed
            else
              && parsed && Linked(pairs, nodes)
              && PairsOf(nodes) == (if Attributes(s) != [] then Gen(d, [], Attributes(s), 0) else [])
              && (!Authentic(s, 8192, secret, vector, seqNbr) ==> result == -2)
              && (Authentic(s, 8192, secret, vector, seqNbr) ==>
                    && (result == 0 <==> s[0] == 2 || s[0] == 5 || s[0] == 8)
                    && (result == 2 <==> s[0] == 3 || s[0] == 9)
                    && (result == 0 || result == 2 || result == -2))
  {
    hide Md5Spec.Digest, Authenticator, Gen, WalkAccepts, LoneLast, Spliced;
    ghost var s := packet[..];
    pairs, nodes, parsed := null, [], false;
    var length := received;
    if length <= 0 {
      return ERROR_RC, false, null, [];
    }
    var headerLength := HeaderLength(packet[..4]);
    assert headerLength == HeaderLength(s);
    if length < AUTH_HDR_LEN || length < headerLength {
      return ERROR_RC, false, null, [];
    }
    if length > headerLength {
      length := headerLength;
    }
    assert length == packet.Length ==> packet[AUTH_HDR_LEN..length] == packet[AUTH_HDR_LEN..];
    var ok := Walk(packet, length);
    assert length > AUTH_HDR_LEN ==> packet[AUTH_HDR_LEN..length] == Attributes(s);
    WalkAcceptsNothing();
    if !ok {
      return ERROR_RC, false, null, [];
    }
    result := CheckReply(packet, BUFFER_LEN, secret, vector, seqNbr);
    parsed := true;
    SplicedKeeps(s, headerLength, vector, secret);
    assert packet[..4] == packet[..][..4] == s[..4];
    var attrLength := HeaderLength(packet[..4]) - AUTH_HDR_LEN;
    assert attrLength == headerLength - AUTH_HDR_LEN;
    if attrLength > 0 {
      assert packet[AUTH_HDR_LEN..headerLength] == packet[..][AUTH_HDR_LEN..headerLength];
      assert s[AUTH_HDR_LEN..headerLength] == Attributes(s);
      pairs, nodes := AvpairGen(d, null, packet[AUTH_HDR_LEN..AUTH_HDR_LEN + attrLength], 0, []);
    }
    if result != OK_RC {
      return;
    }
    assert packet[0] == packet[..4][0];
    result := Verdict(packet[0]);
  }

  lemma SplicedKeeps(s: seq<byte>, n: nat, vector: seq<byte>, secret: seq<byte>)
    requires |vector| == AUTH_VECTOR_LEN
    ensures 20 <= n && n + |secret| <= |s| ==>
              Spliced(s, n, vector, secret)[..4] == s[..4] && |Spliced(s, n, vector, secret)| == |s|
              && Spliced(s, n, vector, secret)[20..n] == s[20..n]
  {
  }

  lemma WalkAcceptsNothing()
    ensures WalkAccepts([])
  {
  }

  // ----- End to end -----

  /** A response as section 3 of RFC 2865 has the server build it. */
  function Response(code: byte, seqNbr: byte, attributes: seq<byte>, vector: seq<byte>,
                    secret: seq<byte>): (s: seq<byte>)
    requires AUTH_HDR_LEN + |attributes| <= 4096 && |vector| == AUTH_VECTOR_LEN
    ensures |s| == AUTH_HDR_LEN + |attributes|
  {
    var n := AUTH_HDR_LEN + |attributes|;
    var start: seq<byte> := [code, seqNbr, n / 0x100, n % 0x100];
    start + Md5Spec.Digest(start + vector + attributes + secret) + attributes
  }

  /** A reply is authentic exactly when it starts with the response section 3 of
      RFC 2865 has the server build from its own code and attributes, for this
      request and this secret, and its length is a legal one that leaves room
      for the secret. */
  lemma AuthenticExactly(s: seq<byte>, secret: seq<byte>, vector: seq<byte>, seqNbr: byte)
    requires |s| == 8192 && |vector| == 16
    ensures var n := s[2] as int * 256 + s[3];
            Authentic(s, 8192, secret, vector, seqNbr)
            <==> 20 <= n <= 4096 && n + |secret| <= 8192
                 && s[..n] == Response(s[0], seqNbr, s[20..n], vector, secret)
  {
    hide Md5Spec.Digest;
    var n := HeaderLength(s);
    if LengthsFit(s, 8192, secret) {
      var start: seq<byte> := [s[0], seqNbr, n / 0x100, n % 0x100];
      var r := Response(s[0], seqNbr, s[20..n], vector, secret);
      assert n / 0x100 == s[2] && n % 0x100 == s[3];
      assert r[..4] == start && r[20..] == s[20..n] && s[..n][20..] == s[20..n];
      assert s[..n] == s[..4] + s[4..20] + s[20..n];
      assert s[..n][1] == s[1] && s[..n][4..20] == s[4..20];
      if s[1] == seqNbr {
        assert s[..4] == start;
        assert r[4..20] == Authenticator(s, vector, secret);
      }
    }
  }

  /** A properly built response to the request passes every check, parses to the
      pairs the server packed and gives the result of its code. */
  lemma EndToEnd(d: Dictionary, code: byte, seqNbr: byte, l: ValidPairs, requestVector: seq<byte>, secret: seq<byte>,
                 trailing: seq<byte>, received: int)
    requires l != [] && |requestVector| == AUTH_VECTOR_LEN && |secret| <= 4096
    requires forall p <- l :: Plain(p) && Carried(d, p) && AttrId(p.attribute) != 0
    requires AUTH_HDR_LEN + |PackedAll(l, secret, requestVector)| <= 4096
    requires var n := AUTH_HDR_LEN + |PackedAll(l, secret, requestVector)|;
             n <= received && n + |trailing| == BUFFER_LEN
    ensures var attributes := PackedAll(l, secret, requestVector);
            var s := Response(code, seqNbr, attributes, requestVector, secret) + trailing;
            && |s| == BUFFER_LEN
            && 20 <= received && s[2] as int * 256 + s[3] <= received
            && Attributes(s) == attributes && attributes != []
            && WalkAccepts(Attributes(s))
            && Authentic(s, 8192, secret, requestVector, seqNbr)
            && Views(Gen(d, [], Attributes(s), 0)) == Views(l)
            && s[0] == code
            && (Verdict(s[0]) == 0 <==> code == 2 || code == 5 || code == 8)
            && (Verdict(s[0]) == 2 <==> code == 3 || code == 9)
  {
    hide Md5Spec.Digest, PackedAll, Gen, WalkAccepts, Plain, Carried;
    var attributes := PackedAll(l, secret, requestVector);
    RoundTripExactly(d, l, secret, requestVector);
    CarriedIsWalked(d, l);
    WalkAcceptsPacked(l, secret, requestVector);
    PackedIsSome(l, secret, requestVector);
    var response := Response(code, seqNbr, attributes, requestVector, secret);
    var s := response + trailing;
    ResponseParts(code, seqNbr, attributes, requestVector, secret, trailing);
  }

  lemma CarriedIsWalked(d: Dictionary, l: ValidPairs)
    requires forall p <- l :: Plain(p) && Carried(d, p) && AttrId(p.attribute) != 0
    ensures forall p <- l :: KnownType(p) && FitsVendor(p) && (Vendor(p.attribute) == 0 ==> p.attribute % 0x100 != 0)
  {
    hide Plain, Carried, KnownType, FitsVendor;
    forall p | p in l
      ensures KnownType(p) && FitsVendor(p) && (Vendor(p.attribute) == 0 ==> p.attribute % 0x100 != 0)
    {
      CarriedPair(d, p);
    }
  }

  lemma CarriedPair(d: Dictionary, p: Pair)
    requires Plain(p) && Carried(d, p) && AttrId(p.attribute) != 0
    ensures KnownType(p) && FitsVendor(p) && p.attribute % 0x100 != 0
  {
    AttributeParts(p.attribute);
  }

  lemma PackedIsSome(l: ValidPairs, secret: seq<byte>, vector: seq<byte>)
    requires l != []
    ensures PackedAll(l, secret, vector) != []
  {
  }

  lemma ResponseParts(code: byte, seqNbr: byte, attributes: seq<byte>, vector: seq<byte>, secret: seq<byte>,
                      trailing: seq<byte>)
    requires |vector| == AUTH_VECTOR_LEN && attributes != []
    requires AUTH_HDR_LEN + |attributes| <= 4096
    ensures var s := Response(code, seqNbr, attributes, vector, secret) + trailing;
            && HeaderLengthOf(s) == AUTH_HDR_LEN + |attributes|
            && s[0] == code && s[1] == seqNbr && Attributes(s) == attributes
            && s[4..20] == Authenticator(s, vector, secret)
  {
    hide Md5Spec.Digest;
    var n := AUTH_HDR_LEN + |attributes|;
    var start: seq<byte> := [code, seqNbr, n / 0x100, n % 0x100];
    var s := Response(code, seqNbr, attributes, vector, secret) + trailing;
    assert s[..4] == start && s[20..n] == attributes;
  }
}
