/** The packet framing of pex.py (lines 16-93): every datagram is the four
    magic bytes "seth", a one-byte packet type, a big-endian 16-bit packet
    id, then an opaque payload; a whole packet never exceeds 1024 bytes. */
module Codec {
  import opened Results
  import opened Swarm

  /** One octet of a datagram. */
  newtype byte = x: int | 0 <= x < 0x100

  /** A 16-bit unsigned value, the range struct format 'H' packs. */
  type uint16 = x: int | 0 <= x < 0x1_0000

  /** The largest datagram the node sends or receives. */
  const PACKET_BUFSIZE: nat := 1024

  /** "seth" in ASCII. */
  const MAGIC: seq<byte> := [0x73, 0x65, 0x74, 0x68]

  /** Magic, one type byte and two id bytes. */
  const HEADER_SIZE: nat := |MAGIC| + 3

  /** The longest payload that still fits in one packet: 1017 bytes. */
  const MAX_PAYLOAD: nat := PACKET_BUFSIZE - HEADER_SIZE

  const MAX_PACKET_TYPE: byte := 3

  datatype PacketType = Message | Ack | Ping | Pex
  {
    /** The type byte on the wire. */
    function Code(): (b: byte)
      ensures b <= MAX_PACKET_TYPE
    {
      match this
      case Message => 0
      case Ack => 1
      case Ping => 2
      case Pex => 3
    }
  }

  /** The packet type a header byte names, if it names one. */
  function TypeOfCode(b: byte): (t: Option<PacketType>)
    ensures t.Some? <==> b <= MAX_PACKET_TYPE
    ensures t.Some? ==> t.value.Code() == b
  {
    if b == 0 then Some(Message)
    else if b == 1 then Some(Ack)
    else if b == 2 then Some(Ping)
    else if b == 3 then Some(Pex)
    else None
  }

  /** A decoded packet. */
  datatype Packet = Packet(ptype: PacketType, id: uint16, payload: seq<byte>)

  /** struct.pack('!H', id): network byte order, high byte first. */
  function IdBytes(id: uint16): (r: seq<byte>)
    ensures |r| == 2 && r[0] as int * 256 + r[1] as int == id as int
  {
    [(id / 256) as byte, (id % 256) as byte]
  }

  /** struct.unpack('!H', [hi, lo]): the high byte is the quotient by 256
      and the low byte the remainder. */
  function IdOfBytes(hi: byte, lo: byte): (r: uint16)
    ensures r as int / 256 == hi as int && r as int % 256 == lo as int
  {
    hi as int * 256 + lo as int
  }

  lemma IdBytesRoundTrip(id: uint16)
    ensures IdOfBytes(IdBytes(id)[0], IdBytes(id)[1]) == id
  {
  }

  lemma IdOfBytesRoundTrip(hi: byte, lo: byte)
    ensures IdBytes(IdOfBytes(hi, lo)) == [hi, lo]
  {
  }

  /** _packPacket: frame a payload, refusing one that would overflow the buffer. */
  function Pack(t: PacketType, id: uint16, payload: seq<byte>): (r: Result<seq<byte>, Error>)
    ensures r.Failure? <==> |payload| > MAX_PAYLOAD
    ensures r.Failure? ==> r.error == PayloadTooLarge
    ensures r.Success? ==>
      && |r.value| == HEADER_SIZE + |payload| <= PACKET_BUFSIZE
      && r.value[..|MAGIC|] == MAGIC
      && r.value[HEADER_SIZE..] == payload
  {
    if |payload| > MAX_PAYLOAD then Failure(PayloadTooLarge)
    else Success(MAGIC + [t.Code()] + IdBytes(id) + payload)
  }

  /** _unpackPacketHeader: None for anything too short, without the magic,
      or with a type byte above 3; any longer input is accepted. */
  function Unpack(packet: seq<byte>): (r: Option<Packet>)
    ensures r.None? <==>
      || |packet| < HEADER_SIZE
      || packet[..|MAGIC|] != MAGIC
      || packet[|MAGIC|] > MAX_PACKET_TYPE
    ensures r.Some? ==>
      && r.value.ptype.Code() == packet[|MAGIC|]
      && r.value.id == packet[|MAGIC| + 1] as int * 256 + packet[|MAGIC| + 2] as int
      && r.value.payload == packet[HEADER_SIZE..]
  {
    if |packet| < HEADER_SIZE || packet[..|MAGIC|] != MAGIC then None
    else
      match TypeOfCode(packet[|MAGIC|])
      case None => None
      case Some(t) => Some(Packet(t, IdOfBytes(packet[|MAGIC| + 1], packet[|MAGIC| + 2]), packet[HEADER_SIZE..]))
  }

  /** Decoding an encoded packet gives back its type, id and payload. */
  lemma UnpackPack(t: PacketType, id: uint16, payload: seq<byte>)
    requires |payload| <= MAX_PAYLOAD
    ensures Pack(t, id, payload).Success?
    ensures Unpack(Pack(t, id, payload).value) == Some(Packet(t, id, payload))
  {
    var p := Pack(t, id, payload).value;
    assert p[|MAGIC|] == t.Code();
    assert p[|MAGIC| + 1] == IdBytes(id)[0] && p[|MAGIC| + 2] == IdBytes(id)[1];
    IdBytesRoundTrip(id);
    match t
    case Message =>
    case Ack =>
    case Ping =>
    case Pex =>
  }

  /** Every packet that decodes and fits the buffer is the encoding of what it decodes to. */
  lemma PackUnpack(packet: seq<byte>)
    requires |packet| <= PACKET_BUFSIZE
    requires Unpack(packet).Some?
    ensures var pk := Unpack(packet).value;
      Pack(pk.ptype, pk.id, pk.payload) == Success(packet)
  {
    var pk := Unpack(packet).value;
    IdOfBytesRoundTrip(packet[|MAGIC| + 1], packet[|MAGIC| + 2]);
    var framed := MAGIC + [pk.ptype.Code()] + IdBytes(pk.id) + pk.payload;
    assert packet == packet[..|MAGIC|] + [packet[|MAGIC|]] + packet[|MAGIC| + 1..HEADER_SIZE] + packet[HEADER_SIZE..];
    assert packet[|MAGIC| + 1..HEADER_SIZE] == [packet[|MAGIC| + 1], packet[|MAGIC| + 2]];
    assert framed == packet;
  }
}
