/** Encoding and decoding packets with buffers masked in place. */
module PacketCodecs {
  import opened Wrappers
  import opened Keys
  import opened Packets

  /** A stream cipher that remembers how much of its stream it has used. */
  class KeystreamCipher {
    const stream: Stream
    var pos: nat

    constructor (stream: Stream)
      ensures this.stream == stream && pos == 0
    {
      this.stream, pos := stream, 0;
    }

    /** Masks a buffer in place and moves on. */
    method ApplyKeystream(buf: array<Byte>)
      modifies this, buf
      ensures pos == old(pos) + buf.Length
      ensures buf[..] == Apply(stream, old(pos), old(buf[..]))
    {
      for i := 0 to buf.Length
        invariant pos == old(pos) + i
        invariant forall k :: 0 <= k < i ==> buf[k] == XorByte(old(buf[k]), stream(old(pos) + k))
        invariant forall k :: i <= k < buf.Length ==> buf[k] == old(buf[k])
      {
        buf[i] := XorByte(buf[i], stream(pos));
        pos := pos + 1;
      }
    }

    /** Masks a copy of some bytes. */
    method Mask(bytes: Bytes) returns (masked: Bytes)
      modifies this
      ensures pos == old(pos) + |bytes| && masked == Apply(stream, old(pos), bytes)
    {
      var buf := new Byte[|bytes|](i requires 0 <= i < |bytes| => bytes[i]);
      assert buf[..] == bytes;
      ApplyKeystream(buf);
      masked := buf[..];
    }
  }

  method EncodeAuthData<R>(c: Codec<R>, kind: Kind<R>) returns (buf: Bytes)
    ensures buf == EncodeKind(c, kind)
  {
    match kind {
      case Message(srcId) => buf := srcId;
      case WhoAreYou(idNonce, enrSeq) =>
        buf := idNonce;
        buf := buf + ToBe(enrSeq, 8);
      case Handshake(srcId, sig, pubkey, record) =>
        buf := srcId;
        buf := buf + [|sig| % 256, |pubkey| % 256];
        buf := buf + sig;
        buf := buf + pubkey;
        if record.Some? {
          buf := buf + c.encode(record.value);
        } else {
          assert buf + [] == buf;
        }
    }
  }

  method EncodePacket<R>(cipher: Cipher, p: Protocol, c: Codec<R>, packet: Packet<R>, dst: RawId) returns (buf: Bytes)
    ensures buf == Encode(cipher, p, c, packet, dst)
  {
    var auth := EncodeAuthData(c, packet.kind);
    var header := p.id;
    header := header + p.version;
    header := header + [Flag(packet.kind)];
    header := header + packet.nonce;
    header := header + ToBe(|auth|, 2);
    header := header + auth;
    var mask := new KeystreamCipher(cipher(dst[..16], packet.iv));
    header := mask.Mask(header);
    buf := packet.iv;
    buf := buf + header;
    buf := buf + packet.message;
  }

  method DecodePacket<R>(cipher: Cipher, p: Protocol, c: Codec<R>, src: RawId, data: Bytes)
    returns (r: Result<(Packet<R>, Bytes), PacketError>)
    ensures r == Decode(cipher, p, c, src, data)
  {
    if |data| > MAX_PACKET_SIZE {
      return Err(TooLarge);
    }
    if |data| < MIN_PACKET_SIZE {
      return Err(TooSmall);
    }
    var iv, start := data[..IV_LENGTH], IV_LENGTH + STATIC_HEADER_LENGTH;
    var mask := new KeystreamCipher(cipher(src[..16], iv));
    var header := mask.Mask(data[IV_LENGTH..start]);
    if header[..6] != p.id {
      return Err(HeaderDecryptionFailed);
    }
    if header[6..8] != p.version {
      return Err(InvalidVersion(FromBe(header[6..8])));
    }
    var size := FromBe(header[STATIC_HEADER_LENGTH - 2..]);
    if size > |data| - start {
      return Err(InvalidAuthDataSize);
    }
    var auth := mask.Mask(data[start..start + size]);
    var kind := DecodeKind(c, header[8], auth);
    if kind.Err? {
      return Err(kind.error);
    }
    var message := data[start + size..];
    if |message| != 0 && kind.value.WhoAreYou? {
      return Err(UnknownPacket);
    }
    var authenticated := iv;
    authenticated := authenticated + header;
    authenticated := authenticated + auth;
    return Ok((Packet(iv, header[9..9 + MESSAGE_NONCE_LENGTH], kind.value, message), authenticated));
  }
}
