/** What the receive side of the transport hands to its consumers, one value per datagram,
    as `MulticastMsg` does. The sockets themselves are not part of this model. */
module Transport {

  /** One received datagram: its payload text, the sender's socket address, and whether the
      receive loop reported a read error instead of a payload. */
  datatype Inbound = Inbound(message: string, src: string, failed: bool)
}
