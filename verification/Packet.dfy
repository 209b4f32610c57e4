/** The wire format of packets: an IV, a masked header and a message. */
module Packets {
  import opened Keys
  import opened Wrappers

  type Byte = b: nat | b < 256
  type Bytes = seq<Byte>

  const IV_LENGTH: nat := 16
  const STATIC_HEADER_LENGTH: nat := 23
  const MESSAGE_NONCE_LENGTH: nat := 12
  const ID_NONCE_LENGTH: nat := 16
  const MAX_PACKET_SIZE: nat := 1280
  const MIN_PACKET_SIZE: nat := IV_LENGTH + STATIC_HEADER_LENGTH + 24

  type Iv = s: Bytes | |s| == IV_LENGTH witness seq(IV_LENGTH, _ => 0)
  type MessageNonce = s: Bytes | |s| == MESSAGE_NONCE_LENGTH witness seq(MESSAGE_NONCE_LENGTH, _ => 0)
  type IdNonce = s: Bytes | |s| == ID_NONCE_LENGTH witness seq(ID_NONCE_LENGTH, _ => 0)
  type RawId = s: Bytes | |s| == 32 witness seq(32, _ => 0)
  type U64 = n: nat | n < 0x1_0000_0000_0000_0000

  /** Protocol name and version, the first eight bytes of every header. */
  datatype Protocol = Protocol(id: Bytes, version: Bytes)

  ghost predicate Proper(p: Protocol) {
    |p.id| == 6 && |p.version| == 2
  }

  /** The encoding of node records, which another library provides. */
  datatype Codec<!R> = Codec(encode: R -> Bytes, decode: Bytes -> Option<R>)

  datatype Kind<R> =
    | Message(srcId: RawId)
    | WhoAreYou(idNonce: IdNonce, enrSeq: U64)
    | Handshake(srcId: RawId, sig: Bytes, pubkey: Bytes, record: Option<R>)

  datatype Packet<R> = Packet(iv: Iv, nonce: MessageNonce, kind: Kind<R>, message: Bytes)

  datatype PacketError =
    | TooLarge
    | TooSmall
    | HeaderDecryptionFailed
    | InvalidVersion(version: nat)
    | InvalidAuthDataSize
    | InvalidEnr
    | UnknownPacket

  // ----- Big-endian numbers

  /** The last `len` bytes of `n`, most significant first. */
  function ToBe(n: nat, len: nat): (r: Bytes)
    ensures |r| == len
  {
    if len == 0 then [] else ToBe(n / 256, len - 1) + [n % 256]
  }

  function FromBe(s: Bytes): nat {
    if s == [] then 0 else FromBe(s[..|s| - 1]) * 256 + s[|s| - 1]
  }

  function Pow256(n: nat): nat {
    if n == 0 then 1 else 256 * Pow256(n - 1)
  }

  lemma {:induction false} BeRoundTrip(n: nat, len: nat)
    requires n < Pow256(len)
    ensures FromBe(ToBe(n, len)) == n
  {
    if len > 0 {
      BeRoundTrip(n / 256, len - 1);
      assert ToBe(n, len)[..len - 1] == ToBe(n / 256, len - 1);
    }
  }

  lemma {:induction false} BeBack(s: Bytes)
    ensures ToBe(FromBe(s), |s|) == s && FromBe(s) < Pow256(|s|)
  {
    if s != [] {
      var init, last := s[..|s| - 1], s[|s| - 1];
      BeBack(init);
      assert FromBe(s) / 256 == FromBe(init) && FromBe(s) % 256 == last;
      assert s == init + [last];
    }
  }

  lemma {:induction false} Pow256Positive(n: nat)
    ensures Pow256(n) > 0
  {
    if n > 0 { Pow256Positive(n - 1); }
  }

  lemma Shifted(a: nat, q: nat, p: nat)
    ensures q * (a * p) == a * (q * p)
  {
  }

  /** Dividing by a multiple of 256 is dividing by 256 first. */
  lemma ByteFirst(x: nat, p: nat)
    requires p > 0
    ensures x / (256 * p) == x / 256 / p
  {
    var h := x / 256;
    var q, r := h / p, h % p;
    Shifted(256, q, p);
    QuotientIsUnique(x, 256 * p, q, 256 * r + x % 256);
  }

  lemma BitFirst(x: nat, p: nat)
    requires p > 0
    ensures x / (2 * p) == x / 2 / p
  {
    var h := x / 2;
    var q, r := h / p, h % p;
    Shifted(2, q, p);
    QuotientIsUnique(x, 2 * p, q, 2 * r + x % 2);
  }

  /** Each byte of a number has its weight, the most significant first. */
  lemma {:induction false} ToBeAt(n: nat, len: nat, i: nat)
    requires i < len
    ensures Pow256(len - 1 - i) > 0 && ToBe(n, len)[i] == n / Pow256(len - 1 - i) % 256
    decreases len
  {
    Pow256Positive(len - 1 - i);
    if i < len - 1 {
      ToBeAt(n / 256, len - 1, i);
      ByteFirst(n, Pow256(len - 2 - i));
    }
  }

  lemma Powers()
    ensures Pow256(2) == 0x1_0000 && Pow256(8) == 0x1_0000_0000_0000_0000
  {
    assert Pow256(1) == 256 && Pow256(2) == 0x1_0000 && Pow256(3) == 0x100_0000 && Pow256(4) == 0x1_0000_0000;
    assert Pow256(5) == 0x100_0000_0000 && Pow256(6) == 0x1_0000_0000_0000 && Pow256(7) == 0x100_0000_0000_0000;
  }

  // ----- Masking

  /** Bitwise exclusive or of the low `n` bits. */
  function XorBits(n: nat, x: nat, k: nat): nat {
    if n == 0 then 0 else (if x % 2 == k % 2 then 0 else 1) + 2 * XorBits(n - 1, x / 2, k / 2)
  }

  lemma {:induction false} XorBitsBound(n: nat, x: nat, k: nat)
    ensures XorBits(n, x, k) < Pow2(n)
  {
    if n > 0 { XorBitsBound(n - 1, x / 2, k / 2); }
  }

  lemma {:induction false} XorBitsTwice(n: nat, x: nat, k: nat)
    requires x < Pow2(n)
    ensures XorBits(n, XorBits(n, x, k), k) == x
  {
    if n > 0 {
      var r, half := XorBits(n, x, k), XorBits(n - 1, x / 2, k / 2);
      assert r / 2 == half && r % 2 == if x % 2 == k % 2 then 0 else 1;
      XorBitsTwice(n - 1, x / 2, k / 2);
    }
  }

  lemma ByteBits()
    ensures Pow2(8) == 256
  {
    assert Pow2(1) == 2 && Pow2(2) == 4 && Pow2(3) == 8 && Pow2(4) == 16 && Pow2(5) == 32 && Pow2(6) == 64 &&
      Pow2(7) == 128;
  }

  function XorByte(x: Byte, k: Byte): Byte {
    ByteBits();
    XorBitsBound(8, x, k);
    XorBits(8, x, k)
  }

  lemma XorByteTwice(x: Byte, k: Byte)
    ensures XorByte(XorByte(x, k), k) == x
  {
    ByteBits();
    XorBitsTwice(8, x, k);
  }

  /** Bit `i` of `x`. */
  function BitOf(x: nat, i: nat): nat {
    Pow2Positive(i);
    (x / Pow2(i)) % 2
  }

  lemma {:induction false} Pow2Positive(i: nat)
    ensures Pow2(i) > 0
  {
    if i > 0 { Pow2Positive(i - 1); }
  }

  lemma MultipleGrows(d: int, p: nat)
    ensures d >= 1 ==> d * p >= p
    ensures d <= -1 ==> d * p <= -(p as int)
  {
    if d >= 1 { assert (d - 1) * p >= 0; }
    if d <= -1 { assert (-1 - d) * p >= 0; }
  }

  lemma QuotientIsUnique(a: nat, p: nat, q: nat, r: nat)
    requires a == q * p + r && r < p
    ensures a / p == q
  {
    var d := a / p - q;
    assert a == (a / p) * p + a % p;
    assert d * p == r - a % p;
    MultipleGrows(d, p);
  }

  lemma NextBit(x: nat, i: nat)
    requires i > 0
    ensures BitOf(x, i) == BitOf(x / 2, i - 1)
  {
    Pow2Positive(i - 1);
    BitFirst(x, Pow2(i - 1));
  }

  lemma {:induction false} XorBitsAt(n: nat, x: nat, k: nat, i: nat)
    requires i < n
    ensures BitOf(XorBits(n, x, k), i) == if BitOf(x, i) != BitOf(k, i) then 1 else 0
  {
    var r, half := XorBits(n, x, k), XorBits(n - 1, x / 2, k / 2);
    assert r / 2 == half;
    if i > 0 {
      NextBit(r, i);
      NextBit(x, i);
      NextBit(k, i);
      XorBitsAt(n - 1, x / 2, k / 2, i - 1);
    }
  }

  /** A masked byte has those bits set in which the clear byte and the mask differ. */
  lemma XorByteAt(x: Byte, k: Byte, i: nat)
    requires i < 8
    ensures BitOf(XorByte(x, k), i) == 1 <==> BitOf(x, i) != BitOf(k, i)
  {
    XorBitsAt(8, x, k, i);
  }

  lemma {:induction false} XorBitsCommute(n: nat, x: nat, k: nat)
    ensures XorBits(n, x, k) == XorBits(n, k, x)
  {
    if n > 0 { XorBitsCommute(n - 1, x / 2, k / 2); }
  }

  /** The mask can be read off a clear byte and its masked form. */
  lemma MaskIsRecovered(x: Byte, k: Byte)
    ensures XorByte(x, XorByte(x, k)) == k
  {
    XorBitsCommute(8, x, k);
    XorBitsCommute(8, x, XorByte(k, x));
    XorByteTwice(k, x);
  }

  /** The bytes a cipher produces under a key and an IV. */
  type Stream = nat -> Byte
  type Cipher = (Bytes, Bytes) -> Stream

  /** The bytes masked with the stream from position `pos` on. */
  function Apply(stream: Stream, pos: nat, s: Bytes): (r: Bytes)
    ensures |r| == |s| && forall i :: 0 <= i < |s| ==> r[i] == XorByte(s[i], stream(pos + i))
  {
    seq(|s|, i requires 0 <= i < |s| => XorByte(s[i], stream(pos + i)))
  }

  lemma ApplyTwice(stream: Stream, pos: nat, s: Bytes)
    ensures Apply(stream, pos, Apply(stream, pos, s)) == s
  {
    var t := Apply(stream, pos, s);
    forall i | 0 <= i < |s| ensures Apply(stream, pos, t)[i] == s[i] {
      XorByteTwice(s[i], stream(pos + i));
    }
  }

  /** Masking in two passes with one cipher is masking in one. */
  lemma ApplyInTwo(stream: Stream, pos: nat, a: Bytes, b: Bytes)
    ensures Apply(stream, pos, a + b) == Apply(stream, pos, a) + Apply(stream, pos + |a|, b)
  {
  }

  // ----- Encoding

  function Flag<R>(k: Kind<R>): Byte {
    match k
    case Message(_) => 0
    case WhoAreYou(_, _) => 1
    case Handshake(_, _, _, _) => 2
  }

  function RecordBytes<R>(c: Codec<R>, record: Option<R>): Bytes {
    if record.Some? then c.encode(record.value) else []
  }

  /** The authentication data of a packet; the two sizes are cut to a byte. */
  function EncodeKind<R>(c: Codec<R>, k: Kind<R>): Bytes {
    match k
    case Message(srcId) => srcId
    case WhoAreYou(idNonce, enrSeq) => idNonce + ToBe(enrSeq, 8)
    case Handshake(srcId, sig, pubkey, record) =>
      srcId + [|sig| % 256, |pubkey| % 256] + sig + pubkey + RecordBytes(c, record)
  }

  /** The header without the authentication data, whose size is cut to two bytes. */
  function StaticHeader<R>(p: Protocol, packet: Packet<R>, authSize: nat): Bytes {
    p.id + p.version + [Flag(packet.kind)] + packet.nonce + ToBe(authSize, 2)
  }

  function EncodeHeader<R>(p: Protocol, c: Codec<R>, packet: Packet<R>): Bytes {
    var auth := EncodeKind(c, packet.kind);
    StaticHeader(p, packet, |auth|) + auth
  }

  function AuthenticatedData<R>(p: Protocol, c: Codec<R>, packet: Packet<R>): Bytes {
    packet.iv + EncodeHeader(p, c, packet)
  }

  function Encode<R>(cipher: Cipher, p: Protocol, c: Codec<R>, packet: Packet<R>, dst: RawId): Bytes {
    packet.iv + Apply(cipher(dst[..16], packet.iv), 0, EncodeHeader(p, c, packet)) + packet.message
  }

  // ----- Decoding

  function DecodeHandshake<R>(c: Codec<R>, auth: Bytes): Result<Kind<R>, PacketError> {
    if |auth| < 34 then Err(InvalidAuthDataSize)
    else
      var sigSize, total := auth[32], auth[32] as nat + auth[33];
      if |auth| < 34 + total then Err(InvalidAuthDataSize)
      else
        var rest := auth[34..];
        var sig, pubkey, tail := rest[..sigSize], rest[sigSize..total], rest[total..];
        if |tail| == 0 then Ok(Handshake(auth[..32], sig, pubkey, None))
        else
          var record := c.decode(tail);
          if record.None? then Err(InvalidEnr) else Ok(Handshake(auth[..32], sig, pubkey, record))
  }

  function DecodeKind<R>(c: Codec<R>, flag: Byte, auth: Bytes): Result<Kind<R>, PacketError> {
    if flag == 0 then
      if |auth| != 32 then Err(InvalidAuthDataSize) else Ok(Message(auth))
    else if flag == 1 then
      if |auth| != 24 then Err(InvalidAuthDataSize)
      else
        BeBack(auth[ID_NONCE_LENGTH..]);
        Powers();
        Ok(WhoAreYou(auth[..ID_NONCE_LENGTH], FromBe(auth[ID_NONCE_LENGTH..])))
    else if flag == 2 then DecodeHandshake(c, auth)
    else Err(UnknownPacket)
  }

  /** The rest of a packet once its static header is unmasked and recognised. */
  function DecodeRest<R>(c: Codec<R>, stream: Stream, header: Bytes, data: Bytes)
    : Result<(Packet<R>, Bytes), PacketError>
    requires |header| == STATIC_HEADER_LENGTH && |data| >= IV_LENGTH + STATIC_HEADER_LENGTH
  {
    var size, start := FromBe(header[STATIC_HEADER_LENGTH - 2..]), IV_LENGTH + STATIC_HEADER_LENGTH;
    if size > |data| - start then Err(InvalidAuthDataSize)
    else
      var auth := Apply(stream, STATIC_HEADER_LENGTH, data[start..start + size]);
      Finish(DecodeKind(c, header[8], auth), data[..IV_LENGTH], header, auth, data[start + size..])
  }

  /** The packet and its authenticated data, from its parts. */
  function Finish<R>(kind: Result<Kind<R>, PacketError>, iv: Iv, header: Bytes, auth: Bytes, message: Bytes)
    : Result<(Packet<R>, Bytes), PacketError>
    requires |header| == STATIC_HEADER_LENGTH
  {
    if kind.Err? then Err(kind.error)
    else if |message| != 0 && kind.value.WhoAreYou? then Err(UnknownPacket)
    else Ok((Packet(iv, header[9..9 + MESSAGE_NONCE_LENGTH], kind.value, message), iv + header + auth))
  }

  function Decode<R>(cipher: Cipher, p: Protocol, c: Codec<R>, src: RawId, data: Bytes)
    : Result<(Packet<R>, Bytes), PacketError>
  {
    if |data| > MAX_PACKET_SIZE then Err(TooLarge)
    else if |data| < MIN_PACKET_SIZE then Err(TooSmall)
    else
      var stream := cipher(src[..16], data[..IV_LENGTH]);
      var header := Apply(stream, 0, data[IV_LENGTH..IV_LENGTH + STATIC_HEADER_LENGTH]);
      if header[..6] != p.id then Err(HeaderDecryptionFailed)
      else if header[6..8] != p.version then Err(InvalidVersion(FromBe(header[6..8])))
      else DecodeRest(c, stream, header, data)
  }

  // ----- Round trips of the authentication data

  /** What the encoding of a kind can carry. */
  ghost predicate Encodable<R>(c: Codec<R>, k: Kind<R>) {
    k.Handshake? ==>
      && |k.sig| < 256 && |k.pubkey| < 256
      && (k.record.Some? ==> c.encode(k.record.value) != [] && c.decode(c.encode(k.record.value)) == k.record)
  }

  lemma HandshakeLayout<R>(c: Codec<R>, k: Kind<R>)
    requires k.Handshake? && |k.sig| < 256 && |k.pubkey| < 256
    ensures var auth := EncodeKind(c, k);
            var rest, total := auth[34..], |k.sig| + |k.pubkey|;
            && |auth| == 34 + total + |RecordBytes(c, k.record)| && auth[..32] == k.srcId && auth[32] == |k.sig| &&
               auth[33] == |k.pubkey|
            && rest[..|k.sig|] == k.sig && rest[|k.sig|..total] == k.pubkey && rest[total..] == RecordBytes(c, k.record)
  {
    var auth := EncodeKind(c, k);
    assert auth[34..] == k.sig + k.pubkey + RecordBytes(c, k.record);
  }

  /** Decoding an encoded handshake gives it back exactly when it is encodable. */
  lemma HandshakeRoundTrip<R>(c: Codec<R>, k: Kind<R>)
    requires k.Handshake?
    ensures DecodeHandshake(c, EncodeKind(c, k)) == Ok(k) <==> Encodable(c, k)
  {
    var auth := EncodeKind(c, k);
    if |k.sig| < 256 && |k.pubkey| < 256 {
      HandshakeLayout(c, k);
    } else {
      SizesAreCut(c, k);
    }
  }

  lemma SizesAreCut<R>(c: Codec<R>, k: Kind<R>)
    requires k.Handshake? && (|k.sig| >= 256 || |k.pubkey| >= 256)
    ensures DecodeHandshake(c, EncodeKind(c, k)) != Ok(k)
  {
    var auth := EncodeKind(c, k);
    assert auth[32] == |k.sig| % 256 && auth[33] == |k.pubkey| % 256;
    var r := DecodeHandshake(c, auth);
    if r.Ok? {
      assert |r.value.sig| == |k.sig| % 256 && |r.value.pubkey| == |k.pubkey| % 256;
    }
  }

  lemma KindRoundTrip<R>(c: Codec<R>, k: Kind<R>)
    ensures DecodeKind(c, Flag(k), EncodeKind(c, k)) == Ok(k) <==> Encodable(c, k)
  {
    match k
    case Message(_) =>
    case WhoAreYou(idNonce, enrSeq) =>
      var auth := EncodeKind(c, k);
      assert auth[..ID_NONCE_LENGTH] == idNonce && auth[ID_NONCE_LENGTH..] == ToBe(enrSeq, 8);
      Powers();
      BeRoundTrip(enrSeq, 8);
    case Handshake(_, _, _, _) => HandshakeRoundTrip(c, k);
  }

  // ----- Round trips of whole packets

  lemma HeaderLayout<R>(p: Protocol, packet: Packet<R>, authSize: nat)
    requires Proper(p) && authSize < 0x1_0000
    ensures var h := StaticHeader(p, packet, authSize);
            && |h| == STATIC_HEADER_LENGTH && h[..6] == p.id && h[6..8] == p.version && h[8] == Flag(packet.kind)
            && h[9..9 + MESSAGE_NONCE_LENGTH] == packet.nonce && FromBe(h[STATIC_HEADER_LENGTH - 2..]) == authSize
  {
    var h := StaticHeader(p, packet, authSize);
    assert h[STATIC_HEADER_LENGTH - 2..] == ToBe(authSize, 2);
    Powers();
    BeRoundTrip(authSize, 2);
  }

  /** Where the parts of an encoded packet lie. */
  lemma PacketLayout<R>(cipher: Cipher, p: Protocol, c: Codec<R>, packet: Packet<R>, dst: RawId)
    requires Proper(p)
    ensures var data, auth := Encode(cipher, p, c, packet, dst), EncodeKind(c, packet.kind);
            var stream, start := cipher(dst[..16], packet.iv), IV_LENGTH + STATIC_HEADER_LENGTH;
            && |data| == start + |auth| + |packet.message| && data[..IV_LENGTH] == packet.iv
            && data[IV_LENGTH..start] == Apply(stream, 0, StaticHeader(p, packet, |auth|))
            && data[start..start + |auth|] == Apply(stream, STATIC_HEADER_LENGTH, auth)
            && data[start + |auth|..] == packet.message
  {
    var auth := EncodeKind(c, packet.kind);
    var header, stream := StaticHeader(p, packet, |auth|), cipher(dst[..16], packet.iv);
    ApplyInTwo(stream, 0, header, auth);
    Slices(packet.iv, Apply(stream, 0, header), Apply(stream, STATIC_HEADER_LENGTH, auth), packet.message);
  }

  lemma Slices<T>(a: seq<T>, b: seq<T>, c: seq<T>, d: seq<T>)
    ensures var s, m, n := a + (b + c) + d, |a| + |b|, |a| + |b| + |c|;
            |s| == n + |d| && s[..|a|] == a && s[|a|..m] == b && s[m..n] == c && s[n..] == d
  {
  }

  /** Where the fields of the authentication data lie. */
  ghost predicate AuthLayout<R>(c: Codec<R>, k: Kind<R>, auth: Bytes) {
    match k
    case Message(srcId) => auth == srcId
    case WhoAreYou(idNonce, enrSeq) =>
      |auth| == 24 && auth[..16] == idNonce && forall i :: 16 <= i < 24 ==> auth[i] == enrSeq / Weight(23 - i) % 256
    case Handshake(srcId, sig, pubkey, record) =>
      var a, b := 34 + |sig|, 34 + |sig| + |pubkey|;
      && |auth| >= b && auth[..32] == srcId && auth[32] == |sig| % 256 && auth[33] == |pubkey| % 256
      && auth[34..a] == sig && auth[a..b] == pubkey
      && auth[b..] == if record.Some? then c.encode(record.value) else []
  }

  /** The weight of a byte that `i` bytes follow. */
  function Weight(i: nat): (w: nat)
    ensures w > 0
  {
    Pow256Positive(i);
    Pow256(i)
  }

  lemma KindLayout<R>(c: Codec<R>, k: Kind<R>)
    ensures AuthLayout(c, k, EncodeKind(c, k))
  {
    var auth := EncodeKind(c, k);
    match k
    case Message(_) =>
    case WhoAreYou(idNonce, enrSeq) =>
      forall i | 16 <= i < 24 ensures auth[i] == enrSeq / Weight(23 - i) % 256 {
        assert auth[i] == ToBe(enrSeq, 8)[i - 16];
        ToBeAt(enrSeq, 8, i - 16);
      }
    case Handshake(srcId, sig, pubkey, record) =>
      assert auth == srcId + [|sig| % 256, |pubkey| % 256] + (sig + (pubkey + RecordBytes(c, record)));
  }

  lemma SizeLayout(s: Bytes, size: nat)
    requires |s| == 2 && s == ToBe(size, 2)
    ensures s[0] == size / 256 % 256 && s[1] == size % 256
  {
    ToBeAt(size, 2, 0);
    ToBeAt(size, 2, 1);
    assert Pow256(1) == 256 && Pow256(0) == 1;
  }

  /** Where every field of a packet lies in its encoding: the IV, then protocol name, version, flag, nonce, size and
      authentication data under the mask, then the message. */
  lemma WireLayout<R>(cipher: Cipher, p: Protocol, c: Codec<R>, packet: Packet<R>, dst: RawId, size: nat)
    requires Proper(p) && size == |EncodeKind(c, packet.kind)|
    ensures var data, stream := Encode(cipher, p, c, packet, dst), cipher(dst[..16], packet.iv);
            && |data| == 39 + size + |packet.message| && data[..16] == packet.iv && data[39 + size..] == packet.message
            && var clear := Apply(stream, 0, data[16..39 + size]);
               && clear[..6] == p.id && clear[6..8] == p.version && clear[8] == Flag(packet.kind)
               && clear[9..21] == packet.nonce && clear[21] == size / 256 % 256 && clear[22] == size % 256
               && AuthLayout(c, packet.kind, clear[23..])
  {
    var data, stream := Encode(cipher, p, c, packet, dst), cipher(dst[..16], packet.iv);
    var header := EncodeHeader(p, c, packet);
    assert data[16..39 + size] == Apply(stream, 0, header);
    ApplyTwice(stream, 0, header);
    SizeLayout(header[21..23], size);
    KindLayout(c, packet.kind);
    assert header[23..] == EncodeKind(c, packet.kind);
  }

  /** What encoding followed by decoding preserves. */
  ghost predicate Transmissible<R>(p: Protocol, c: Codec<R>, packet: Packet<R>) {
    && |AuthenticatedData(p, c, packet)| + |packet.message| <= MAX_PACKET_SIZE
    && (packet.kind.WhoAreYou? ==> packet.message == [])
    && Encodable(c, packet.kind)
  }

  lemma KindSize<R>(c: Codec<R>, k: Kind<R>)
    ensures |EncodeKind(c, k)| >= 24
  {
  }

  /** Decoding what was encoded for the same node gives back the packet and its authenticated data, exactly when the
      packet fits, a WHOAREYOU packet has no message, and a handshake's parts fit their size fields and its record
      survives its own encoding. */
  lemma PacketRoundTrip<R>(cipher: Cipher, p: Protocol, c: Codec<R>, packet: Packet<R>, dst: RawId)
    requires Proper(p)
    ensures Decode(cipher, p, c, dst, Encode(cipher, p, c, packet, dst)) ==
            Ok((packet, AuthenticatedData(p, c, packet)))
       <==> Transmissible(p, c, packet)
  {
    var data, auth := Encode(cipher, p, c, packet, dst), EncodeKind(c, packet.kind);
    var stream, header := cipher(dst[..16], packet.iv), StaticHeader(p, packet, |auth|);
    PacketLayout(cipher, p, c, packet, dst);
    KindSize(c, packet.kind);
    if |data| <= MAX_PACKET_SIZE {
      ApplyTwice(stream, 0, header);
      ApplyTwice(stream, STATIC_HEADER_LENGTH, auth);
      HeaderLayout(p, packet, |auth|);
      RestRoundTrip(c, stream, header, data, auth, packet);
      assert AuthenticatedData(p, c, packet) == packet.iv + header + auth;
    }
  }

  lemma RestRoundTrip<R>(c: Codec<R>, stream: Stream, header: Bytes, data: Bytes, auth: Bytes, packet: Packet<R>)
    requires |header| == STATIC_HEADER_LENGTH && auth == EncodeKind(c, packet.kind) && header[8] == Flag(packet.kind)
    requires header[9..9 + MESSAGE_NONCE_LENGTH] == packet.nonce && FromBe(header[STATIC_HEADER_LENGTH - 2..]) == |auth|
    requires var start := IV_LENGTH + STATIC_HEADER_LENGTH;
             && |data| == start + |auth| + |packet.message| && data[..IV_LENGTH] == packet.iv &&
                data[start + |auth|..] == packet.message
             && Apply(stream, STATIC_HEADER_LENGTH, data[start..start + |auth|]) == auth
    ensures DecodeRest(c, stream, header, data) == Ok((packet, packet.iv + header + auth))
       <==> (packet.kind.WhoAreYou? ==> packet.message == []) && Encodable(c, packet.kind)
  {
    KindRoundTrip(c, packet.kind);
    FinishRoundTrip(DecodeKind(c, header[8], auth), header, auth, packet);
  }

  lemma FinishRoundTrip<R>(kind: Result<Kind<R>, PacketError>, header: Bytes, auth: Bytes, packet: Packet<R>)
    requires |header| == STATIC_HEADER_LENGTH && header[9..9 + MESSAGE_NONCE_LENGTH] == packet.nonce
    ensures Finish(kind, packet.iv, header, auth, packet.message) == Ok((packet, packet.iv + header + auth))
       <==> (packet.kind.WhoAreYou? ==> packet.message == []) && kind == Ok(packet.kind)
  {
  }

  // ----- What decoding refuses, and why

  /** The reasons that come first: the size of the datagram, then the protocol name, then the version. */
  lemma RefusalReasons<R>(cipher: Cipher, p: Protocol, c: Codec<R>, src: RawId, data: Bytes)
    ensures var r := Decode(cipher, p, c, src, data);
            && (r == Err(TooLarge) <==> |data| > MAX_PACKET_SIZE)
            && (r == Err(TooSmall) <==> |data| < MIN_PACKET_SIZE)
            && (MIN_PACKET_SIZE <= |data| <= MAX_PACKET_SIZE ==>
                  var clear := Apply(cipher(src[..16], data[..16]), 0, data[16..39]);
                  && (r == Err(HeaderDecryptionFailed) <==> clear[..6] != p.id)
                  && (r.Err? && r.error.InvalidVersion? <==> clear[..6] == p.id && clear[6..8] != p.version)
                  && (clear[..6] == p.id && clear[6..8] == p.version ==> r == RestSays(c, src, cipher, data, clear)))
  {
    if MIN_PACKET_SIZE <= |data| <= MAX_PACKET_SIZE {
      var stream := cipher(src[..16], data[..16]);
      var clear := Apply(stream, 0, data[16..39]);
      SizeBytes(clear[21..23]);
      assert clear[21..] == clear[21..23];
    }
  }

  lemma SizeBytes(s: Bytes)
    requires |s| == 2
    ensures FromBe(s) == 256 * s[0] as nat + s[1]
  {
    assert s[..1][..0] == [];
    assert FromBe(s[..1]) == s[0];
  }

  /** Past the version: the declared size must fit, the flag must be known and fit the size, a handshake's parts must
      fit and its record decode, and a WHOAREYOU packet carries no message. */
  ghost function RestSays<R>(c: Codec<R>, src: RawId, cipher: Cipher, data: Bytes, clear: Bytes)
    : Result<(Packet<R>, Bytes), PacketError>
    requires |data| >= 39 && |clear| == 23
  {
    var size := 256 * clear[21] as nat + clear[22];
    if size > |data| - 39 then Err(InvalidAuthDataSize)
    else
      var auth, message := Apply(cipher(src[..16], data[..16]), 23, data[39..39 + size]), data[39 + size..];
      match DecodeKind(c, clear[8], auth)
      case Err(e) => Err(e)
      case Ok(kind) =>
        if kind.WhoAreYou? && message != [] then Err(UnknownPacket)
        else Ok((Packet(data[..16], clear[9..21], kind, message), data[..16] + clear + auth))
  }

  /** The authentication data a flag admits. */
  lemma KindReasons<R>(c: Codec<R>, flag: Byte, auth: Bytes)
    ensures var r := DecodeKind(c, flag, auth);
            && (flag == 0 ==>
                (r == Err(InvalidAuthDataSize) <==> |auth| != 32) && (r.Err? ==> r.error.InvalidAuthDataSize?))
            && (flag == 1 ==>
                (r == Err(InvalidAuthDataSize) <==> |auth| != 24) && (r.Err? ==> r.error.InvalidAuthDataSize?))
            && (flag > 2 ==> r == Err(UnknownPacket))
            && (flag == 2 ==>
                  && (r == Err(InvalidAuthDataSize) <==>
                      |auth| < 34 || |auth| < 34 + auth[32] as nat + auth[33] as nat)
                  && (r == Err(InvalidEnr) <==>
                      && |auth| > 34 && |auth| > 34 + auth[32] as nat + auth[33] as nat
                      && c.decode(auth[34 + auth[32] as nat + auth[33] as nat..]).None?)
                  && (r.Err? ==> r.error.InvalidAuthDataSize? || r.error.InvalidEnr?))
  {
    if flag == 2 && |auth| >= 34 && |auth| >= 34 + auth[32] as nat + auth[33] as nat {
      var total := auth[32] as nat + auth[33] as nat;
      assert auth[34..][total..] == auth[34 + total..];
    }
  }

  // ----- What decoding accepts

  /** The challenge data of a decoded WHOAREYOU packet always has its one legal size. */
  lemma ChallengeDataSize<R>(cipher: Cipher, p: Protocol, c: Codec<R>, src: RawId, data: Bytes)
    requires Decode(cipher, p, c, src, data).Ok? && Decode(cipher, p, c, src, data).value.0.kind.WhoAreYou?
    ensures |Decode(cipher, p, c, src, data).value.1| == 63 && |data| == 63
  {
  }

  /** Encoding the record of a handshake, if it has one, gives the bytes after signature and key. */
  ghost predicate RecordReturns<R>(c: Codec<R>, k: Kind<R>, auth: Bytes) {
    k.Handshake? && k.record.Some? ==>
      var end := 34 + |k.sig| + |k.pubkey|;
      end <= |auth| && c.encode(k.record.value) == auth[end..]
  }

  lemma HandshakeBack<R>(c: Codec<R>, auth: Bytes)
    requires DecodeHandshake(c, auth).Ok?
    ensures var k := DecodeHandshake(c, auth).value;
            EncodeKind(c, k) == auth <==> RecordReturns(c, k, auth)
  {
    var k := DecodeHandshake(c, auth).value;
    var total := auth[32] as nat + auth[33];
    var rest := auth[34..];
    assert rest[total..] == auth[34 + total..];
    ThreeParts(rest, auth[32], total);
    assert auth == auth[..32] + [auth[32], auth[33]] + rest;
    Regroup(auth[..32] + [auth[32], auth[33]], rest[..auth[32]], rest[auth[32]..total], rest[total..]);
    TailDecides(auth[..32] + [auth[32], auth[33]] + k.sig + k.pubkey, RecordBytes(c, k.record), rest[total..]);
  }

  lemma TailDecides<T>(s: seq<T>, a: seq<T>, b: seq<T>)
    ensures s + a == s + b <==> a == b
  {
    assert (s + a)[|s|..] == a && (s + b)[|s|..] == b;
  }

  lemma ThreeParts<T>(s: seq<T>, a: nat, b: nat)
    requires a <= b <= |s|
    ensures s == s[..a] + s[a..b] + s[b..]
  {
  }

  lemma Regroup<T>(a: seq<T>, b: seq<T>, c: seq<T>, d: seq<T>)
    ensures a + (b + c + d) == a + b + c + d
  {
  }

  lemma KindBack<R>(c: Codec<R>, flag: Byte, auth: Bytes)
    requires DecodeKind(c, flag, auth).Ok?
    ensures var k := DecodeKind(c, flag, auth).value;
            Flag(k) == flag && (EncodeKind(c, k) == auth <==> RecordReturns(c, k, auth))
  {
    if flag == 1 {
      BeBack(auth[ID_NONCE_LENGTH..]);
      assert auth == auth[..ID_NONCE_LENGTH] + auth[ID_NONCE_LENGTH..];
    } else if flag == 2 {
      HandshakeBack(c, auth);
    }
  }

  lemma HeaderBack<R>(p: Protocol, packet: Packet<R>, header: Bytes, authSize: nat)
    requires |header| == STATIC_HEADER_LENGTH && header[..6] == p.id && header[6..8] == p.version &&
             header[8] == Flag(packet.kind)
    requires header[9..9 + MESSAGE_NONCE_LENGTH] == packet.nonce &&
             FromBe(header[STATIC_HEADER_LENGTH - 2..]) == authSize
    ensures StaticHeader(p, packet, authSize) == header
  {
    BeBack(header[STATIC_HEADER_LENGTH - 2..]);
    assert header ==
      header[..6] + header[6..8] + [header[8]] + header[9..9 + MESSAGE_NONCE_LENGTH] +
        header[STATIC_HEADER_LENGTH - 2..];
  }

  /** The parts an accepted datagram was taken apart into. */
  ghost predicate TakenApart<R>(p: Protocol, stream: Stream, data: Bytes, packet: Packet<R>, authenticated: Bytes,
                                header: Bytes, auth: Bytes, end: nat)
  {
    var start := IV_LENGTH + STATIC_HEADER_LENGTH;
    && start <= end <= |data| && |header| == STATIC_HEADER_LENGTH
    && header == Apply(stream, 0, data[IV_LENGTH..start]) &&
       auth == Apply(stream, STATIC_HEADER_LENGTH, data[start..end])
    && packet.iv == data[..IV_LENGTH] && packet.message == data[end..] &&
       authenticated == data[..IV_LENGTH] + header + auth
    && Proper(p) && StaticHeader(p, packet, |auth|) == header
  }

  lemma RestParts<R>(c: Codec<R>, stream: Stream, header: Bytes, data: Bytes, size: nat)
    requires |header| == STATIC_HEADER_LENGTH && |data| >= IV_LENGTH + STATIC_HEADER_LENGTH
    requires size == FromBe(header[STATIC_HEADER_LENGTH - 2..]) && DecodeRest(c, stream, header, data).Ok?
    ensures var r, start := DecodeRest(c, stream, header, data).value, IV_LENGTH + STATIC_HEADER_LENGTH;
            && size <= |data| - start
            && var auth := Apply(stream, STATIC_HEADER_LENGTH, data[start..start + size]);
               && DecodeKind(c, header[8], auth) == Ok(r.0.kind) && r.1 == data[..IV_LENGTH] + header + auth
               && r.0.iv == data[..IV_LENGTH] && r.0.message == data[start + size..]
               && r.0.nonce == header[9..9 + MESSAGE_NONCE_LENGTH]
  {
  }

  lemma DecodeParts<R>(cipher: Cipher, p: Protocol, c: Codec<R>, src: RawId, data: Bytes)
    returns (header: Bytes, auth: Bytes, end: nat)
    requires Decode(cipher, p, c, src, data).Ok?
    ensures var r := Decode(cipher, p, c, src, data).value;
            && TakenApart(p, cipher(src[..16], data[..IV_LENGTH]), data, r.0, r.1, header, auth, end)
            && (EncodeKind(c, r.0.kind) == auth <==> RecordReturns(c, r.0.kind, auth))
  {
    var r := Decode(cipher, p, c, src, data).value;
    var start, stream := IV_LENGTH + STATIC_HEADER_LENGTH, cipher(src[..16], data[..IV_LENGTH]);
    header := Apply(stream, 0, data[IV_LENGTH..start]);
    var size := FromBe(header[STATIC_HEADER_LENGTH - 2..]);
    RestParts(c, stream, header, data, size);
    end := start + size;
    auth := Apply(stream, STATIC_HEADER_LENGTH, data[start..end]);
    KindBack(c, header[8], auth);
    HeaderBack(p, r.0, header, size);
  }

  lemma Unmask(stream: Stream, a: Bytes, b: Bytes)
    ensures Apply(stream, 0, Apply(stream, 0, a) + Apply(stream, |a|, b)) == a + b
  {
    ApplyInTwo(stream, 0, Apply(stream, 0, a), Apply(stream, |a|, b));
    ApplyTwice(stream, 0, a);
    ApplyTwice(stream, |a|, b);
  }

  lemma FourParts<T>(s: seq<T>, a: nat, b: nat, c: nat)
    requires a <= b <= c <= |s|
    ensures s == s[..a] + (s[a..b] + s[b..c]) + s[c..]
  {
  }

  /** An accepted datagram is the encoding of the packet it is decoded to, and its authenticated data that packet's,
      exactly when the record in it, if any, is encoded as it came: always for messages, WHOAREYOU packets and
      handshakes without a record. */
  lemma DecodedIsEncoded<R>(cipher: Cipher, p: Protocol, c: Codec<R>, src: RawId, data: Bytes)
    requires Decode(cipher, p, c, src, data).Ok?
    ensures var (packet, authenticated) := Decode(cipher, p, c, src, data).value;
            var start := IV_LENGTH + STATIC_HEADER_LENGTH;
            && start <= |authenticated|
            && (Encode(cipher, p, c, packet, src) == data <==> RecordReturns(c, packet.kind, authenticated[start..]))
            && (AuthenticatedData(p, c, packet) == authenticated <==>
                RecordReturns(c, packet.kind, authenticated[start..]))
  {
    var r := Decode(cipher, p, c, src, data).value;
    var header, auth, end := DecodeParts(cipher, p, c, src, data);
    assert r.1[IV_LENGTH + STATIC_HEADER_LENGTH..] == auth;
    if EncodeKind(c, r.0.kind) == auth {
      Rebuild(cipher, p, c, src, data, r.0, r.1, header, auth, end);
    } else {
      NotRebuilt(cipher, p, c, src, data, r.0, r.1, header, auth, end);
    }
  }

  lemma NotRebuilt<R>(cipher: Cipher, p: Protocol, c: Codec<R>, src: RawId, data: Bytes, packet: Packet<R>,
                      authenticated: Bytes, header: Bytes, auth: Bytes, end: nat)
    requires |data| >= IV_LENGTH &&
             TakenApart(p, cipher(src[..16], data[..IV_LENGTH]), data, packet, authenticated, header, auth, end)
    requires EncodeKind(c, packet.kind) != auth
    ensures Encode(cipher, p, c, packet, src) != data && authenticated != AuthenticatedData(p, c, packet)
  {
    var start, other := IV_LENGTH + STATIC_HEADER_LENGTH, EncodeKind(c, packet.kind);
    PacketLayout(cipher, p, c, packet, src);
    ApplyTwice(cipher(src[..16], data[..IV_LENGTH]), STATIC_HEADER_LENGTH, other);
    assert AuthenticatedData(p, c, packet)[start..] == other;
    assert authenticated[start..] == auth;
  }

  lemma Rebuild<R>(cipher: Cipher, p: Protocol, c: Codec<R>, src: RawId, data: Bytes, packet: Packet<R>,
                   authenticated: Bytes, header: Bytes, auth: Bytes, end: nat)
    requires |data| >= IV_LENGTH &&
             TakenApart(p, cipher(src[..16], data[..IV_LENGTH]), data, packet, authenticated, header, auth, end)
    requires EncodeKind(c, packet.kind) == auth
    ensures Encode(cipher, p, c, packet, src) == data && authenticated == AuthenticatedData(p, c, packet)
  {
    var stream, start := cipher(src[..16], data[..IV_LENGTH]), IV_LENGTH + STATIC_HEADER_LENGTH;
    Unmask(stream, data[IV_LENGTH..start], data[start..end]);
    FourParts(data, IV_LENGTH, start, end);
    Pair(packet.iv, header, auth);
  }

  lemma Pair<T>(a: seq<T>, b: seq<T>, c: seq<T>)
    ensures a + (b + c) == a + b + c
  {
  }
}
