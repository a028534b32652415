/** The shared vocabulary of the swarm layer (swarm.py): the exceptions a node
    reports to its caller, and the network addresses peers are reached at. */
module Swarm {

  /** A peer identifier as text; valid ones are 64 lower-case hex characters. */
  type PeerId = string

  /** A (host, port) pair as handed to sendto; the port is whatever integer
      the caller supplied, since nothing in the core range-checks it. */
  datatype Address = Address(host: string, port: int)

  datatype Error =
    | MalformedPeerId(badPeerId: string)   // MalformedPeerIdException
    | InaccessiblePeer(peerId: string)     // InaccessiblePeerException
    | PayloadTooLarge                      // 'Packet payload too long!'
    | NonAsciiHost(host: string)           // bytearray(ip, 'ascii') fails
}
