/** Requests, packets and addresses as the session handler sees them. Keys, ciphertexts and records are abstract. */
module HandlerTypes {
  import opened Wrappers

  type SocketAddr = nat
  type RequestId = nat
  type Nonce = nat

  datatype NodeAddress = NodeAddress(socket: SocketAddr, nodeId: nat)

  /** A contactable node; `hasEnr` says whether its record is known. */
  datatype Contact = Contact(address: NodeAddress, hasEnr: bool)

  datatype PacketKind = RandomPacket | MessagePacket | HandshakePacket | WhoAreYouPacket
  datatype Packet = Packet(nonce: Nonce, kind: PacketKind)

  datatype HandlerReqId = Internal(id: RequestId) | External(id: RequestId)

  datatype RequestBody = Ping | FindNode(distances: seq<nat>) | Talk

  /** A request awaiting a response. */
  datatype RequestCall = RequestCall(
    contact: Contact,
    packet: Packet,
    id: HandlerReqId,
    body: RequestBody,
    handshakeSent: bool,
    retries: nat,
    remaining: Option<nat>,
    initiating: bool)

  /** A request queued for sending. */
  datatype PendingRequest = PendingRequest(contact: Contact, id: HandlerReqId, body: RequestBody)

  datatype RequestError = SelfRequest | NotEncrypted | Timeout | InvalidRemotePacket | InvalidRemoteEnr

  /** A call and the address it is filed under. */
  datatype Active = Active(addr: NodeAddress, call: RequestCall)

  function At(a: NodeAddress): Active -> bool {
    (e: Active) => e.addr == a
  }

  function WithNonce(n: Nonce): Active -> bool {
    (e: Active) => e.call.packet.nonce == n
  }

  function WithId(x: RequestId): Active -> bool {
    (e: Active) => e.call.id.id == x
  }

  /** The request of that id filed under that address. */
  function IdAt(a: NodeAddress, x: RequestId): Active -> bool {
    (e: Active) => e.addr == a && e.call.id.id == x
  }

  function ForAddress(a: NodeAddress): PendingRequest -> bool {
    (p: PendingRequest) => p.contact.address == a
  }
}
