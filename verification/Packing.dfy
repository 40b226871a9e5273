/** Serialising pairs into RADIUS attributes (section 5 of RFC 2865), with
    Vendor-Specific nesting (section 5.26) and User-Password hiding (section 5.2). */
module Packing {
  import opened Bits
  import opened ValuePairs
  import Md5Spec
  import Md5

  const AUTH_VECTOR_LEN := 16
  const AUTH_PASS_LEN := 48
  const AUTH_HDR_LEN := 20

  /** htonl: the most significant octet first. */
  function Be32(w: word): (s: seq<byte>)
    ensures |s| == 4 && w == s[0] as int * 0x100_0000 + s[1] as int * 0x1_0000 + s[2] as int * 0x100 + s[3]
  {
    assert w / 0x1_0000 == w / 0x100_0000 * 0x100 + w / 0x1_0000 % 0x100;
    assert w / 0x100 == w / 0x1_0000 * 0x100 + w / 0x100 % 0x100;
    [w / 0x100_0000, w / 0x1_0000 % 0x100, w / 0x100 % 0x100, w % 0x100]
  }

  function FromBe32(s: seq<byte>): (w: word)
    requires |s| == 4
  {
    var b0: word, b1: word, b2: word, b3: word := s[0], s[1], s[2], s[3];
    b0 * 0x100_0000 + b1 * 0x1_0000 + b2 * 0x100 + b3
  }

  lemma Be32RoundTrip(w: word)
    ensures FromBe32(Be32(w)) == w
  {
    hide Be32;
  }

  // ----- User-Password hiding -----

  function XorOctets(s: seq<byte>, t: seq<byte>): (r: seq<byte>)
    requires |s| == |t|
    ensures |r| == |s|
  {
    seq(|s|, i requires 0 <= i < |s| => ByteXor(s[i], t[i]))
  }

  lemma XorOctetsTwice(s: seq<byte>, t: seq<byte>)
    requires |s| == |t|
    ensures XorOctets(XorOctets(s, t), s) == t
  {
    forall i | 0 <= i < |s|
      ensures ByteXor(ByteXor(s[i], t[i]), s[i]) == t[i]
    {
      XorCommutes(s[i], t[i]);
      XorTwice(t[i], s[i]);
    }
  }

  /** c(i) = p(i) xor MD5(secret + c(i-1)), c(0) being the request authenticator. */
  function HideBlocks(p: seq<byte>, secret: seq<byte>, prev: seq<byte>): (c: seq<byte>)
    decreases |p|
  {
    if |p| < AUTH_VECTOR_LEN then []
    else
      var block := XorOctets(Md5Spec.Digest(secret + prev), p[..AUTH_VECTOR_LEN]);
      block + HideBlocks(p[AUTH_VECTOR_LEN..], secret, block)
  }

  /** What the server does: p(i) = c(i) xor MD5(secret + c(i-1)). */
  function UnhideBlocks(c: seq<byte>, secret: seq<byte>, prev: seq<byte>): (p: seq<byte>)
    decreases |c|
  {
    if |c| < AUTH_VECTOR_LEN then []
    else
      XorOctets(c[..AUTH_VECTOR_LEN], Md5Spec.Digest(secret + prev))
      + UnhideBlocks(c[AUTH_VECTOR_LEN..], secret, c[..AUTH_VECTOR_LEN])
  }

  lemma {:induction false} HideKeepsLength(n: nat, p: seq<byte>, secret: seq<byte>, prev: seq<byte>)
    requires |p| == AUTH_VECTOR_LEN * n
    ensures |HideBlocks(p, secret, prev)| == |p|
  {
    hide Md5Spec.Digest, XorOctets;
    if n > 0 {
      var block := XorOctets(Md5Spec.Digest(secret + prev), p[..AUTH_VECTOR_LEN]);
      HideKeepsLength(n - 1, p[AUTH_VECTOR_LEN..], secret, block);
    }
  }

  lemma {:induction false} UnhideUndoesHide(n: nat, p: seq<byte>, secret: seq<byte>, prev: seq<byte>)
    requires |p| == AUTH_VECTOR_LEN * n
    ensures UnhideBlocks(HideBlocks(p, secret, prev), secret, prev) == p
  {
    hide Md5Spec.Digest, XorOctets;
    if n > 0 {
      var d := Md5Spec.Digest(secret + prev);
      var block := XorOctets(d, p[..AUTH_VECTOR_LEN]);
      var rest := HideBlocks(p[AUTH_VECTOR_LEN..], secret, block);
      assert (block + rest)[..AUTH_VECTOR_LEN] == block && (block + rest)[AUTH_VECTOR_LEN..] == rest;
      XorOctetsTwice(d, p[..AUTH_VECTOR_LEN]);
      UnhideUndoesHide(n - 1, p[AUTH_VECTOR_LEN..], secret, block);
    }
  }

  /** The octets of the password that are sent: at most 48. */
  function Chopped(p: Pair): (s: seq<byte>)
    requires |p.strvalue| == AUTH_STRING_LEN + 1
    ensures |s| <= AUTH_PASS_LEN
  {
    p.strvalue[..if p.lvalue > AUTH_PASS_LEN then AUTH_PASS_LEN else p.lvalue]
  }

  /** (length + 15) & ~15 */
  function PaddedLength(n: nat): (m: nat)
    ensures m % AUTH_VECTOR_LEN == 0 && n <= m < n + AUTH_VECTOR_LEN
  {
    (n + 15) / 16 * 16
  }

  function PaddedPassword(p: Pair): (s: seq<byte>)
    requires |p.strvalue| == AUTH_STRING_LEN + 1
    ensures |s| == PaddedLength(|Chopped(p)|) && |s| <= AUTH_PASS_LEN
  {
    Chopped(p) + Zeros(PaddedLength(|Chopped(p)|) - |Chopped(p)|)
  }

  /** Un-hiding the octets sent for a password gives its first 48 octets, padded
      with zeros to the least multiple of 16. */
  lemma PasswordRecovered(p: Pair, secret: seq<byte>, vector: seq<byte>)
    requires ValidPair(p) && p.typ.String?
    ensures UnhideBlocks(HideBlocks(PaddedPassword(p), secret, vector), secret, vector) == PaddedPassword(p)
    ensures |PaddedPassword(p)| % 16 == 0 && |PaddedPassword(p)| < |Chopped(p)| + 16
    ensures Chopped(p) <= PaddedPassword(p)
    ensures Chopped(p) == if p.lvalue > 48 then p.strvalue[..48] else View(p).strvalue
    ensures forall i :: |Chopped(p)| <= i < |PaddedPassword(p)| ==> PaddedPassword(p)[i] == 0
  {
    UnhideUndoesHide(PaddedLength(|Chopped(p)|) / 16, PaddedPassword(p), secret, vector);
  }

  // ----- Attributes -----

  predicate KnownType(p: Pair) { p.attribute == PW_USER_PASSWORD || !p.typ.Unknown? }

  /** The value octets of one attribute. */
  function Payload(p: Pair, secret: seq<byte>, vector: seq<byte>): (s: seq<byte>)
    requires ValidPair(p)
    ensures |s| <= AUTH_STRING_LEN
  {
    if p.attribute == PW_USER_PASSWORD then
      HideKeepsLength(|PaddedPassword(p)| / 16, PaddedPassword(p), secret, vector);
      HideBlocks(PaddedPassword(p), secret, vector)
    else
      match p.typ
      case String => p.strvalue[..p.lvalue]
      case Ipv6Addr => p.strvalue[..16]
      case Ipv6Prefix => p.strvalue[..p.lvalue]
      case Unknown(_) => []
      case _ => Be32(p.lvalue)
  }

  /** One attribute as written.  Lengths are octets, so the length of a
      Vendor-Specific attribute wraps around when its value is too long; a pair
      of unknown type leaves only its header behind. */
  function Packed(p: Pair, secret: seq<byte>, vector: seq<byte>): (s: seq<byte>)
    requires ValidPair(p)
  {
    var body := Payload(p, secret, vector);
    var inner := if KnownType(p) then [p.attribute % 0x100, |body| + 2] + body else [p.attribute % 0x100];
    if Vendor(p.attribute) == 0 then inner
    else
      [PW_VENDOR_SPECIFIC, if KnownType(p) then (6 + |inner|) % 0x100 else 6] + Be32(Vendor(p.attribute)) + inner
  }

  /** Attribute 2, User-Password, never goes out in clear: behind its id and its
      length stands what a server un-hides to the first 48 octets, padded. */
  lemma PasswordIsHidden(p: Pair, secret: seq<byte>, vector: seq<byte>)
    requires ValidPair(p) && p.typ.String? && p.attribute == 2
    ensures var s := Packed(p, secret, vector);
            && |s| >= 2 && s[0] == 2 && s[1] == |s| && |s| % 16 == 2
            && var plain := UnhideBlocks(s[2..], secret, vector);
               && View(p).strvalue[..if p.lvalue > 48 then 48 else p.lvalue] <= plain
               && |plain| == |s| - 2 < (if p.lvalue > 48 then 48 else p.lvalue) + 16
               && forall i :: p.lvalue <= i < |plain| ==> plain[i] == 0
  {
    hide HideBlocks, UnhideBlocks;
    PasswordRecovered(p, secret, vector);
    assert Packed(p, secret, vector)[2..] == HideBlocks(PaddedPassword(p), secret, vector);
    HideKeepsLength(|PaddedPassword(p)| / 16, PaddedPassword(p), secret, vector);
  }

  function PackedAll(s: ValidPairs, secret: seq<byte>, vector: seq<byte>): (octets: seq<byte>) {
    if s == [] then [] else Packed(s[0], secret, vector) + PackedAll(s[1..], secret, vector)
  }

  /** What the running total adds for one pair. */
  function Counted(p: Pair): (n: nat)
    requires ValidPair(p)
  {
    (if Vendor(p.attribute) != 0 then 6 else 0)
    + if p.attribute == PW_USER_PASSWORD then |PaddedPassword(p)| + 2
      else
        match p.typ
        case String => p.lvalue + 2
        case Ipv6Addr => 16 + 2
        case Ipv6Prefix => p.lvalue + 2
        case Unknown(_) => 0
        case _ => 4 + 2
  }

  function CountedAll(s: ValidPairs): (n: nat) {
    if s == [] then 0 else Counted(s[0]) + CountedAll(s[1..])
  }

  /** The returned total is the number of octets written if and only if every
      pair has a type the packer knows. */
  lemma {:induction false} CountedExactly(s: ValidPairs, secret: seq<byte>, vector: seq<byte>)
    ensures CountedAll(s) <= |PackedAll(s, secret, vector)|
    ensures CountedAll(s) == |PackedAll(s, secret, vector)| <==> forall p <- s :: KnownType(p)
  {
    hide Packed, Counted, KnownType;
    if s != [] {
      CountedExactly(s[1..], secret, vector);
      CountedOne(s[0], secret, vector);
      assert s == [s[0]] + s[1..];
    }
  }

  lemma CountedOne(p: Pair, secret: seq<byte>, vector: seq<byte>)
    requires ValidPair(p)
    ensures Counted(p) <= |Packed(p, secret, vector)|
    ensures Counted(p) == |Packed(p, secret, vector)| <==> KnownType(p)
  {
    hide HideBlocks;
    HideKeepsLength(|PaddedPassword(p)| / 16, PaddedPassword(p), secret, vector);
  }

  lemma {:induction false} PackedAllConcat(s: ValidPairs, t: ValidPairs, secret: seq<byte>, vector: seq<byte>)
    ensures (forall p <- s + t :: ValidPair(p))
    ensures PackedAll(s + t, secret, vector) == PackedAll(s, secret, vector) + PackedAll(t, secret, vector)
  {
    hide Packed;
    if s == [] {
      assert s + t == t;
    } else {
      assert (s + t)[1..] == s[1..] + t;
      PackedAllConcat(s[1..], t, secret, vector);
    }
  }

  // ----- rc_pack_list -----

  /** s with data written over it from at on. */
  function Overlay(s: seq<byte>, at: nat, data: seq<byte>): (r: seq<byte>)
    requires at + |data| <= |s|
    ensures |r| == |s|
  {
    s[..at] + data + s[at + |data|..]
  }

  lemma OverlayParts(s: seq<byte>, at: nat, data: seq<byte>)
    requires at + |data| <= |s|
    ensures var r := Overlay(s, at, data);
            r[..at] == s[..at] && r[at..at + |data|] == data && r[at + |data|..] == s[at + |data|..]
  {
  }

  lemma OverlayKeeps(s: seq<byte>, at: nat, data: seq<byte>, a: nat, b: nat)
    requires a <= b <= at && at + |data| <= |s|
    ensures Overlay(s, at, data)[a..b] == s[a..b]
  {
  }

  /** Writing on behind what was written, and writing over it. */
  lemma OverlayMore(s: seq<byte>, at: nat, data: seq<byte>, more: seq<byte>)
    requires at + |data| + |more| <= |s|
    ensures Overlay(Overlay(s, at, data), at + |data|, more) == Overlay(s, at, data + more)
  {
  }

  lemma OverlayOne(s: seq<byte>, at: nat, b: byte)
    requires at < |s|
    ensures Overlay(s, at, [b]) == s[at := b]
  {
  }

  lemma OverlaySame(s: seq<byte>, a: nat, b: nat)
    requires a <= b <= |s|
    ensures Overlay(s, a, s[a..b]) == s
  {
  }

  /** memcpy(buffer + at, data, |data|) */
  method Put(buffer: array<byte>, at: nat, data: seq<byte>)
    requires at + |data| <= buffer.Length
    modifies buffer
    ensures buffer[..] == Overlay(old(buffer[..]), at, data)
  {
    hide Overlay;
    ghost var s := buffer[..];
    OverlaySame(s, at, at);
    assert s[at..at] == [];
    assert data[..0] == [];
    var i := 0;
    while i < |data|
      invariant i <= |data|
      invariant buffer[..] == Overlay(s, at, data[..i])
    {
      assert data[..i + 1] == data[..i] + [data[i]];
      OverlayMore(s, at, data[..i], [data[i]]);
      OverlayOne(buffer[..], at + i, data[i]);
      buffer[at + i] := data[i];
      i := i + 1;
    }
    assert data[..i] == data;
  }

  /** The digest goes to the buffer and the password block is then xored into
      it; the cipher block is the vector of the next one.  buf and vector are
      offsets into the packet. */
  method PutHidden(auth: array<byte>, at: nat, passbuf: seq<byte>, secret: seq<byte>, ghost n: nat,
                   ghost hidden: seq<byte>)
    requires |passbuf| == AUTH_VECTOR_LEN * n && |secret| < 0x1000_0000
    requires AUTH_HDR_LEN <= at && at + |passbuf| <= auth.Length
    requires hidden == HideBlocks(passbuf, secret, auth[4..20]) && |hidden| == |passbuf|
    modifies auth
    ensures auth[..] == Overlay(old(auth[..]), at, hidden)
  {
    hide Md5Spec.Digest, HideBlocks, XorOctets, Overlay;
    var vector: nat, buf, i := 4, at, 0;
    ghost var j, done: seq<byte>, s := 0, [], auth[..];
    assert passbuf[0..] == passbuf;
    OverlaySame(s, at, at);
    assert s[at..at] == done;
    while i < |passbuf|
      invariant j <= n && i == 16 * j && |done| == i && buf == at + i && vector + 16 <= buf
      invariant auth[..] == Overlay(s, at, done)
      invariant hidden == done + HideBlocks(passbuf[i..], secret, auth[vector..vector + 16])
      decreases n - j
    {
      HideMore(done, passbuf, i, secret, auth[vector..vector + 16]);
      ghost var block := PutBlock(auth, buf, vector, passbuf[i..i + 16], secret);
      OverlayBlock(s, at, done, block);
      vector := buf;
      buf := buf + 16;
      i := i + 16;
      j := j + 1;
      done := done + block;
    }
    HideNothing(passbuf[i..], secret, auth[vector..vector + 16]);
    assert done + [] == done;
  }

  /** One block: its digest, xored with the password in place. */
  method PutBlock(auth: array<byte>, buf: nat, vector: nat, plain: seq<byte>, secret: seq<byte>)
    returns (ghost block: seq<byte>)
    requires |plain| == 16 && |secret| < 0x1000_0000 && vector + 16 <= buf && buf + 16 <= auth.Length
    modifies auth
    ensures block == XorOctets(Md5Spec.Digest(secret + old(auth[vector..vector + 16])), plain)
    ensures auth[..] == Overlay(old(auth[..]), buf, block)
  {
    hide Md5Spec.Digest, Overlay;
    var digest := Md5.Md5Calc(secret + auth[vector..vector + 16]);
    block := XorOctets(digest, plain);
    PutXored(auth, buf, digest, plain);
  }

  lemma HideNothing(p: seq<byte>, secret: seq<byte>, prev: seq<byte>)
    requires p == []
    ensures HideBlocks(p, secret, prev) == []
  {
  }

  lemma HideFirstBlock(p: seq<byte>, secret: seq<byte>, prev: seq<byte>)
    requires |p| >= 16
    ensures var block := XorOctets(Md5Spec.Digest(secret + prev), p[..16]);
            HideBlocks(p, secret, prev) == block + HideBlocks(p[16..], secret, block)
  {
    hide Md5Spec.Digest, XorOctets;
  }

  lemma HideMore(done: seq<byte>, p: seq<byte>, i: nat, secret: seq<byte>, prev: seq<byte>)
    requires i + 16 <= |p|
    ensures var block := XorOctets(Md5Spec.Digest(secret + prev), p[i..i + 16]);
            done + HideBlocks(p[i..], secret, prev) == done + block + HideBlocks(p[i + 16..], secret, block)
  {
    hide Md5Spec.Digest, XorOctets, HideBlocks;
    HideFirstBlock(p[i..], secret, prev);
    assert p[i..][..16] == p[i..i + 16] && p[i..][16..] == p[i + 16..];
  }

  lemma OverlayBlock(s: seq<byte>, at: nat, done: seq<byte>, block: seq<byte>)
    requires at + |done| + |block| <= |s|
    ensures var r, end := Overlay(Overlay(s, at, done), at + |done|, block), at + |done| + |block|;
            r == Overlay(s, at, done + block) && r[at + |done|..end] == block
  {
    hide Overlay;
    OverlayParts(Overlay(s, at, done), at + |done|, block);
    OverlayMore(s, at, done, block);
  }

  /** rc_md5_calc to the buffer, then *buf++ ^= passbuf[pc] for one block. */
  method PutXored(auth: array<byte>, buf: nat, digest: seq<byte>, block: seq<byte>)
    requires |digest| == |block| && buf + |block| <= auth.Length
    modifies auth
    ensures auth[..] == Overlay(old(auth[..]), buf, XorOctets(digest, block))
  {
    hide ByteXor, Overlay;
    ghost var s := auth[..];
    Put(auth, buf, digest);
    ghost var mixed: seq<byte> := digest;
    var pc := 0;
    while pc < |block|
      invariant pc <= |block| == |mixed|
      invariant auth[..] == Overlay(s, buf, mixed)
      invariant mixed[..pc] == XorOctets(digest, block)[..pc] && mixed[pc..] == digest[pc..]
    {
      OverlayParts(s, buf, mixed);
      assert auth[buf + pc] == auth[buf..buf + |mixed|][pc] == mixed[pc] == mixed[pc..][0] == digest[pc];
      ghost var next: seq<byte> := mixed[pc := ByteXor(digest[pc], block[pc])];
      OverlayUpdate(s, buf, mixed, pc, next[pc]);
      auth[buf + pc] := ByteXor(auth[buf + pc], block[pc]);
      mixed := next;
      pc := pc + 1;
    }
    assert mixed == mixed[..pc] && XorOctets(digest, block)[..pc] == XorOctets(digest, block);
  }

  lemma OverlayUpdate(s: seq<byte>, at: nat, data: seq<byte>, k: nat, b: byte)
    requires at + |data| <= |s| && k < |data|
    ensures Overlay(s, at, data)[at + k := b] == Overlay(s, at, data[k := b])
  {
  }

  /** The octets before the length octet of the attribute proper. */
  function Header(p: Pair): (h: seq<byte>)
    ensures |h| == if Vendor(p.attribute) == 0 then 1 else 7
  {
    (if Vendor(p.attribute) == 0 then [] else [PW_VENDOR_SPECIFIC, 6] + Be32(Vendor(p.attribute)))
    + [p.attribute % 0x100]
  }

  /** A header whose outer length, if it has one, counts n octets more. */
  function Bumped(p: Pair, n: nat): (h: seq<byte>)
    ensures |h| == |Header(p)|
  {
    if Vendor(p.attribute) == 0 then Header(p) else Header(p)[1 := (6 + n) % 0x100]
  }

  /** A header once the length and the value have been written after it. */
  function Completed(p: Pair, body: seq<byte>): (s: seq<byte>)
    requires |body| <= AUTH_STRING_LEN
    ensures |s| == |Header(p)| + 1 + |body|
  {
    Bumped(p, |body| + 2) + [|body| + 2] + body
  }

  lemma CompletedIsPacked(p: Pair, secret: seq<byte>, vector: seq<byte>)
    requires ValidPair(p)
    ensures KnownType(p) ==> Packed(p, secret, vector) == Completed(p, Payload(p, secret, vector))
    ensures !KnownType(p) ==> Packed(p, secret, vector) == Header(p)
  {
    hide Payload;
  }

  method PutHeader(auth: array<byte>, at: nat, p: Pair) returns (buf: nat, vsaLength: Option<nat>)
    requires at + |Header(p)| <= auth.Length
    modifies auth
    ensures buf == at + |Header(p)| && auth[..] == Overlay(old(auth[..]), at, Header(p))
    ensures vsaLength == if Vendor(p.attribute) == 0 then None else Some(at + 1)
  {
    hide Be32, Header, Overlay;
    ghost var s, done: seq<byte> := auth[..], [];
    buf, vsaLength := at, None;
    HeaderParts(p);
    OverlaySame(s, at, at);
    assert s[at..at] == done;
    if Vendor(p.attribute) != 0 {
      OverlayOne(s, buf, PW_VENDOR_SPECIFIC);
      auth[buf] := PW_VENDOR_SPECIFIC;
      vsaLength := Some(buf + 1);
      OverlayOne(auth[..], buf + 1, 6);
      auth[buf + 1] := 6;
      OverlayMore(s, at, [PW_VENDOR_SPECIFIC], [6]);
      assert [PW_VENDOR_SPECIFIC] + [6] == [PW_VENDOR_SPECIFIC, 6];
      Put(auth, buf + 2, Be32(Vendor(p.attribute)));
      OverlayMore(s, at, [PW_VENDOR_SPECIFIC, 6], Be32(Vendor(p.attribute)));
      done := [PW_VENDOR_SPECIFIC, 6] + Be32(Vendor(p.attribute));
      buf := buf + 6;
    }
    OverlayOne(auth[..], buf, p.attribute % 0x100);
    auth[buf] := p.attribute % 0x100;
    OverlayMore(s, at, done, [p.attribute % 0x100]);
    buf := buf + 1;
  }

  lemma HeaderParts(p: Pair)
    ensures Vendor(p.attribute) == 0 ==> Header(p) == [] + [p.attribute % 0x100]
    ensures Vendor(p.attribute) != 0 ==>
              Header(p) == [PW_VENDOR_SPECIFIC, 6] + Be32(Vendor(p.attribute)) + [p.attribute % 0x100]
  {
    hide Be32;
  }

  /** Writes the length octet and adds it to the length of the enclosing
      Vendor-Specific attribute. */
  method PutLength(auth: array<byte>, at: nat, p: Pair, start: nat, vsaLength: Option<nat>, n: byte, ghost s: seq<byte>)
    requires start == at + |Header(p)| && start < auth.Length == |s|
    requires vsaLength == if Vendor(p.attribute) == 0 then None else Some(at + 1)
    requires auth[..] == Overlay(s, at, Header(p))
    modifies auth
    ensures auth[..] == Overlay(s, at, Bumped(p, n) + [n])
  {
    hide Header, Overlay;
    OverlayOne(auth[..], start, n);
    auth[start] := n;
    OverlayMore(s, at, Header(p), [n]);
    if vsaLength.Some? {
      OverlayParts(s, at, Header(p) + [n]);
      HeaderSix(p);
      assert auth[at + 1] == auth[at..start + 1][1] == Header(p)[1];
      OverlayUpdate(s, at, Header(p) + [n], 1, (6 + n) % 0x100);
      assert (Header(p) + [n])[1 := (6 + n) % 0x100] == Bumped(p, n) + [n];
      auth[vsaLength.value] := (auth[vsaLength.value] + n) % 0x100;
    }
  }

  lemma HeaderSix(p: Pair)
    requires Vendor(p.attribute) != 0
    ensures Header(p)[1] == 6
  {
  }

  /** Length and value behind the header. */
  method PutValue(auth: array<byte>, at: nat, p: Pair, start: nat, vsaLength: Option<nat>, body: seq<byte>,
                  ghost s: seq<byte>)
    returns (buf: nat)
    requires |body| <= AUTH_STRING_LEN
    requires start == at + |Header(p)| && start + 1 + |body| <= auth.Length == |s|
    requires vsaLength == if Vendor(p.attribute) == 0 then None else Some(at + 1)
    requires auth[..] == Overlay(s, at, Header(p))
    modifies auth
    ensures buf == start + 1 + |body| && auth[..] == Overlay(s, at, Completed(p, body))
  {
    hide Header, Bumped, Overlay;
    PutLength(auth, at, p, start, vsaLength, |body| + 2, s);
    Put(auth, start + 1, body);
    OverlayMore(s, at, Bumped(p, |body| + 2) + [|body| + 2], body);
    buf := start + 1 + |body|;
  }

  method PutPassword(auth: array<byte>, at: nat, p: Pair, start: nat, vsaLength: Option<nat>, passbuf: seq<byte>,
                     secret: seq<byte>, ghost s: seq<byte>, ghost hidden: seq<byte>)
    returns (buf: nat)
    requires |passbuf| <= AUTH_PASS_LEN && |passbuf| % 16 == 0 && |secret| < 0x1000_0000
    requires AUTH_HDR_LEN <= at && start == at + |Header(p)| && start + 1 + |passbuf| <= auth.Length == |s|
    requires vsaLength == if Vendor(p.attribute) == 0 then None else Some(at + 1)
    requires auth[..] == Overlay(s, at, Header(p))
    requires hidden == HideBlocks(passbuf, secret, s[4..20]) && |hidden| == |passbuf|
    modifies auth
    ensures buf == start + 1 + |passbuf| && auth[..] == Overlay(s, at, Completed(p, hidden))
  {
    hide Header, Bumped, Overlay, HideBlocks;
    PutLength(auth, at, p, start, vsaLength, |passbuf| + 2, s);
    OverlayKeeps(s, at, Bumped(p, |passbuf| + 2) + [|passbuf| + 2], 4, 20);
    assert auth[4..20] == auth[..][4..20];
    PutHidden(auth, start + 1, passbuf, secret, |passbuf| / 16, hidden);
    OverlayMore(s, at, Bumped(p, |passbuf| + 2) + [|passbuf| + 2], hidden);
    buf := start + 1 + |passbuf|;
  }

  /** One turn of the packing loop. */
  method PackPair(auth: array<byte>, at: nat, p: Pair, secret: seq<byte>, ghost vector: seq<byte>)
    returns (buf: nat, added: nat)
    requires ValidPair(p) && |secret| < 0x1000_0000
    requires AUTH_HDR_LEN <= at && at + |Packed(p, secret, vector)| <= auth.Length && auth[4..20] == vector
    modifies auth
    ensures buf == at + |Packed(p, secret, vector)| && added == Counted(p)
    ensures auth[..] == Overlay(old(auth[..]), at, Packed(p, secret, vector))
  {
    hide Packed, Payload, HideBlocks, Header, Completed, Be32, Overlay;
    ghost var s := auth[..];
    assert s[4..20] == vector;
    CompletedIsPacked(p, secret, vector);
    PayloadCases(p, secret, vector);
    var vsaLength;
    buf, vsaLength := PutHeader(auth, at, p);
    added := if vsaLength.Some? then 6 else 0;
    if p.attribute == PW_USER_PASSWORD {
      var passbuf := PaddedPassword(p);
      buf := PutPassword(auth, at, p, buf, vsaLength, passbuf, secret, s, Payload(p, secret, vector));
      added := added + |passbuf| + 2;
    } else {
      match p.typ
      case String =>
        buf := PutValue(auth, at, p, buf, vsaLength, p.strvalue[..p.lvalue], s);
        added := added + p.lvalue + 2;
      case Ipv6Addr =>
        buf := PutValue(auth, at, p, buf, vsaLength, p.strvalue[..16], s);
        added := added + 16 + 2;
      case Ipv6Prefix =>
        buf := PutValue(auth, at, p, buf, vsaLength, p.strvalue[..p.lvalue], s);
        added := added + p.lvalue + 2;
      case Unknown(_) =>
      case _ =>
        buf := PutValue(auth, at, p, buf, vsaLength, Be32(p.lvalue), s);
        added := added + 4 + 2;
    }
  }

  lemma PayloadCases(p: Pair, secret: seq<byte>, vector: seq<byte>)
    requires ValidPair(p)
    ensures p.attribute == PW_USER_PASSWORD ==>
              Payload(p, secret, vector) == HideBlocks(PaddedPassword(p), secret, vector)
              && |Payload(p, secret, vector)| == |PaddedPassword(p)|
    ensures p.attribute != PW_USER_PASSWORD && p.typ.String? ==> Payload(p, secret, vector) == p.strvalue[..p.lvalue]
    ensures p.attribute != PW_USER_PASSWORD && p.typ.Ipv6Prefix?
            ==> Payload(p, secret, vector) == p.strvalue[..p.lvalue]
    ensures p.attribute != PW_USER_PASSWORD && p.typ.Ipv6Addr? ==> Payload(p, secret, vector) == p.strvalue[..16]
    ensures p.attribute != PW_USER_PASSWORD && (p.typ.Integer? || p.typ.IpAddr? || p.typ.Date?) ==>
              Payload(p, secret, vector) == Be32(p.lvalue)
  {
    hide HideBlocks, Be32;
    HideKeepsLength(|PaddedPassword(p)| / 16, PaddedPassword(p), secret, vector);
  }

  /** rc_pack_list: the attributes of the list, in order, behind the header of
      the packet.  The caller provides a buffer that is large enough. */
  method PackList(vp: ValuePair?, secret: seq<byte>, auth: array<byte>, ghost nodes: seq<ValuePair>,
                  ghost vector: seq<byte>)
    returns (total: nat)
    requires Linked(vp, nodes) && |secret| < 0x1000_0000
    requires auth.Length >= AUTH_HDR_LEN && auth[4..20] == vector
    requires forall p <- PairsOf(nodes) :: ValidPair(p)
    requires AUTH_HDR_LEN + |PackedAll(PairsOf(nodes), secret, vector)| <= auth.Length
    modifies auth
    ensures auth[..] == Overlay(old(auth[..]), AUTH_HDR_LEN, PackedAll(PairsOf(nodes), secret, vector))
    ensures total == CountedAll(PairsOf(nodes))
    ensures (forall p <- PairsOf(nodes) :: KnownType(p)) ==> total == |PackedAll(PairsOf(nodes), secret, vector)|
  {
    hide Packed, Counted, PackedAll, CountedAll, PairsOf, Overlay, KnownType, ValidPair, Linked;
    ghost var pairs: ValidPairs, s := PairsOf(nodes), auth[..];
    LinkedNodes(vp, nodes);
    var node, buf := vp, AUTH_HDR_LEN;
    total := 0;
    ghost var k, done: seq<byte> := 0, [];
    PackedNothing(secret, vector);
    OverlaySame(s, AUTH_HDR_LEN, AUTH_HDR_LEN);
    assert s[AUTH_HDR_LEN..AUTH_HDR_LEN] == done;
    while node != null
      invariant k <= |nodes| && node == At(nodes, k) && PairsOf(nodes) == pairs
      invariant done == PackedAll(pairs[..k], secret, vector) && total == CountedAll(pairs[..k])
      invariant buf == AUTH_HDR_LEN + |done| <= auth.Length
      invariant auth[..] == Overlay(s, AUTH_HDR_LEN, done)
      decreases |nodes| - k
    {
      PairAt(nodes, k);
      PackedPrefix(pairs, k, secret, vector);
      ghost var more := Packed(node.pair, secret, vector);
      PackedMore(s, done, more);
      assert auth[4..20] == auth[..][4..20];
      var added;
      buf, added := PackPair(auth, buf, node.pair, secret, vector);
      total := total + added;
      done := done + more;
      node, k := node.next, k + 1;
    }
    assert pairs[..k] == pairs;
    CountedExactly(pairs, secret, vector);
  }

  lemma LinkedNodes(head: ValuePair?, nodes: seq<ValuePair>)
    requires Linked(head, nodes)
    ensures head == At(nodes, 0) && forall i :: 0 <= i < |nodes| ==> nodes[i].next == At(nodes, i + 1)
  {
  }

  lemma PairAt(nodes: seq<ValuePair>, k: nat)
    requires k < |nodes|
    ensures |PairsOf(nodes)| == |nodes| && nodes[k].pair == PairsOf(nodes)[k]
  {
  }

  lemma PackedMore(s: seq<byte>, done: seq<byte>, more: seq<byte>)
    requires AUTH_HDR_LEN + |done| + |more| <= |s|
    ensures var at := AUTH_HDR_LEN;
            && Overlay(s, at, done)[4..20] == s[4..20]
            && Overlay(Overlay(s, at, done), at + |done|, more) == Overlay(s, at, done + more)
  {
    hide Overlay;
    OverlayKeeps(s, AUTH_HDR_LEN, done, 4, 20);
    OverlayMore(s, AUTH_HDR_LEN, done, more);
  }

  lemma PackedNothing(secret: seq<byte>, vector: seq<byte>)
    ensures PackedAll([], secret, vector) == [] && CountedAll([]) == 0
  {
  }

  lemma PackedPrefix(s: ValidPairs, k: nat, secret: seq<byte>, vector: seq<byte>)
    requires k < |s|
    ensures PackedAll(s[..k + 1], secret, vector) == PackedAll(s[..k], secret, vector) + Packed(s[k], secret, vector)
    ensures CountedAll(s[..k + 1]) == CountedAll(s[..k]) + Counted(s[k])
    ensures |PackedAll(s[..k + 1], secret, vector)| <= |PackedAll(s, secret, vector)|
  {
    hide Packed, Counted;
    assert s[..k + 1] == s[..k] + [s[k]] && s == s[..k + 1] + s[k + 1..];
    PackedAllConcat(s[..k], [s[k]], secret, vector);
    PackedAllConcat(s[..k + 1], s[k + 1..], secret, vector);
    assert [s[k]][1..] == [];
    assert PackedAll([s[k]], secret, vector) == Packed(s[k], secret, vector) + [];
    CountedAllConcat(s[..k], s[k]);
  }

  lemma {:induction false} CountedAllConcat(s: ValidPairs, p: Pair)
    requires ValidPair(p)
    ensures (forall q <- s + [p] :: ValidPair(q)) && CountedAll(s + [p]) == CountedAll(s) + Counted(p)
  {
    hide Counted;
    if s == [] {
      assert s + [p] == [p] && [p][1..] == [];
    } else {
      assert (s + [p])[1..] == s[1..] + [p];
      CountedAllConcat(s[1..], p);
    }
  }
}
