/** The peer-exchange node (PexNode, pex.py lines 112-228) as a state
    transformer. A node is its peer table, the time of its last broadcast,
    its broadcast switch and its bound port; each operation returns the new
    node together with the datagrams it sends, and poll also returns the
    messages handed to the application's receive callback. The socket, the
    clock and SHA-256 are parameters: sends are returned rather than
    performed, inbound datagrams arrive as a sequence, time is an integer,
    and the hash is any function into 64-character lower-case hex. */
module PexNode {
  import opened Results
  import opened Swarm
  import opened Codec
  import opened PeerIdentity
  import opened PeerRecords

  /** Seconds between broadcasts (_BROADCAST_INTERVAL). */
  const BROADCAST_INTERVAL: int := 2

  /** The defaults of PexNode(): the port bound when none is given, and
      broadcasting switched on. */
  const DEFAULT_PORT: int := 4141
  const DEFAULT_BROADCAST: bool := true

  /** The host name the socket layer maps to the broadcast address. */
  const BROADCAST_HOST: string := "<broadcast>"

  datatype Node = Node(peers: map<PeerId, PeerRecord>, lastBroadcast: int, broadcast: bool, port: int)

  /** One sendto call. */
  datatype Send = Send(packet: seq<byte>, to: Address)

  /** One call of the application's receive callback. */
  datatype Delivery = Delivery(from: PeerId, message: seq<byte>)

  /** One datagram as recvfrom returns it. */
  datatype Datagram = Datagram(data: seq<byte>, from: Address)

  /** The outcome of an application call: the node afterwards (which may
      have changed even when an exception is raised), what was sent, and
      the exception raised, if any. */
  datatype Effect = Effect(node: Node, sends: seq<Send>, raised: Option<Error>)

  /** The outcome of a poll step. */
  datatype PollStep = PollStep(node: Node, sends: seq<Send>, deliveries: seq<Delivery>)

  /** knownPeers: the identifiers in the peer table. */
  function KnownPeers(n: Node): (r: set<PeerId>)
    ensures forall id :: id in r <==> id in n.peers
  {
    n.peers.Keys
  }

  /** A record is filed under its own identifier, which is the identifier
      derived from its address. */
  predicate RecordFits(h: Sha256, k: PeerId, rec: PeerRecord)
  {
    rec.identifier == k && AddrToPeerId(h, rec.address.host, rec.address.port) == Success(k)
  }

  /** The peer table invariant every operation keeps. */
  predicate Valid(n: Node, h: Sha256)
  {
    forall k :: k in n.peers ==> RecordFits(h, k, n.peers[k])
  }

  /** The later table keeps every earlier record as it was. */
  predicate Extends(before: map<PeerId, PeerRecord>, after: map<PeerId, PeerRecord>)
  {
    before.Keys <= after.Keys && forall k :: k in before ==> after[k] == before[k]
  }

  predicate BroadcastDue(n: Node, now: int)
  {
    n.broadcast && n.lastBroadcast < now - BROADCAST_INTERVAL
  }

  /** PexNode.__init__: no peers, and the last broadcast dated one interval
      back, so that the first poll at any later time broadcasts. */
  function NewNode(port: int, broadcast: bool, now: int): (n: Node)
    ensures n.port == port && n.broadcast == broadcast
    ensures KnownPeers(n) == {}
    ensures forall h :: Valid(n, h)
    ensures forall later :: later > now ==> (BroadcastDue(n, later) <==> broadcast)
    ensures forall later :: later <= now ==> !BroadcastDue(n, later)
  {
    Node(map[], now - BROADCAST_INTERVAL, broadcast, port)
  }

  /** PexNode() with every argument left at its default, as the shell
      creates it: bound to port 4141, with no peers, and broadcasting at its
      first poll after its creation. */
  function DefaultNode(now: int): (n: Node)
    ensures n.port == 4141 && n.broadcast
    ensures KnownPeers(n) == {}
    ensures forall later :: later > now ==> BroadcastDue(n, later)
  {
    NewNode(DEFAULT_PORT, DEFAULT_BROADCAST, now)
  }

  /** A header-only packet of the given type and id. */
  function ControlPacket(t: PacketType, id: uint16): (p: seq<byte>)
    ensures Unpack(p) == Some(Packet(t, id, []))
    ensures |p| == HEADER_SIZE
  {
    UnpackPack(t, id, []);
    Pack(t, id, []).value
  }

  predicate IsAckPacket(p: seq<byte>)
  {
    Unpack(p).Some? && Unpack(p).value.ptype == Ack && Unpack(p).value.payload == []
  }

  /** The broadcast part of poll: when enabled and more than the interval
      has passed, a PING with id 0 and no payload goes to the broadcast
      address on the node's own port, and the time is recorded. */
  function BroadcastTick(n: Node, now: int): (r: PollStep)
    ensures r.deliveries == [] && r.node.peers == n.peers
    ensures r.node.broadcast == n.broadcast && r.node.port == n.port
    ensures BroadcastDue(n, now) ==>
      && r.node.lastBroadcast == now
      && |r.sends| == 1
      && r.sends[0].to == Address(BROADCAST_HOST, n.port)
      && Unpack(r.sends[0].packet) == Some(Packet(Ping, 0, []))
    ensures !BroadcastDue(n, now) ==> r.node == n && r.sends == []
  {
    if BroadcastDue(n, now) then
      PollStep(n.(lastBroadcast := now), [Send(ControlPacket(Ping, 0), Address(BROADCAST_HOST, n.port))], [])
    else PollStep(n, [], [])
  }

  /** Two broadcasts are always more than the interval apart. */
  lemma BroadcastSpacing(n: Node, t1: int, t2: int)
    requires BroadcastDue(n, t1)
    requires BroadcastDue(BroadcastTick(n, t1).node, t2)
    ensures t2 > t1 + BROADCAST_INTERVAL
  {
  }

  /** The identifier of the peer a datagram came from. */
  function SenderId(h: Sha256, from: Address): (id: PeerId)
    requires IsAscii(from.host)
    ensures AddrToPeerId(h, from.host, from.port) == Success(id)
  {
    AddrToPeerId(h, from.host, from.port).value
  }

  /** The peer table after first contact from an address: a fresh record is
      added when the sender is unknown. */
  function Register(peers: map<PeerId, PeerRecord>, h: Sha256, from: Address): (after: map<PeerId, PeerRecord>)
    requires IsAscii(from.host)
    ensures Extends(peers, after)
    ensures after.Keys == peers.Keys + {SenderId(h, from)}
    ensures SenderId(h, from) !in peers ==> after[SenderId(h, from)] == NewRecord(SenderId(h, from), from)
  {
    var id := SenderId(h, from);
    if id in peers then peers else peers[id := NewRecord(id, from)]
  }

  /** _handlePacket: a MESSAGE goes to the receive callback, a PING is
      answered with an ACK carrying the same id to the sender, ACK and PEX
      do nothing; in every case an unknown sender is added. */
  function HandlePacket(n: Node, h: Sha256, from: Address, pk: Packet): (r: PollStep)
    requires IsAscii(from.host)
    ensures r.node == n.(peers := r.node.peers)
    ensures Extends(n.peers, r.node.peers)
    ensures r.node.peers.Keys == n.peers.Keys + {SenderId(h, from)}
    ensures SenderId(h, from) !in n.peers ==> r.node.peers[SenderId(h, from)] == NewRecord(SenderId(h, from), from)
    ensures pk.ptype == Ping ==>
      |r.sends| == 1 && r.sends[0].to == from && Unpack(r.sends[0].packet) == Some(Packet(Ack, pk.id, []))
    ensures pk.ptype != Ping ==> r.sends == []
    ensures pk.ptype == Message ==> r.deliveries == [Delivery(SenderId(h, from), pk.payload)]
    ensures pk.ptype != Message ==> r.deliveries == []
  {
    var id := SenderId(h, from);
    var deliveries := if pk.ptype == Message then [Delivery(id, pk.payload)] else [];
    var sends := if pk.ptype == Ping then [Send(ControlPacket(Ack, pk.id), from)] else [];
    PollStep(n.(peers := Register(n.peers, h, from)), sends, deliveries)
  }

  /** Handling one inbound datagram: one that does not decode is dropped.
      Whatever the table holds, it sends exactly the reply the datagram is
      owed and delivers exactly its message. */
  function Receive(n: Node, h: Sha256, d: Datagram): (r: PollStep)
    requires IsAscii(d.from.host)
    ensures r.node == n.(peers := r.node.peers) && Extends(n.peers, r.node.peers)
    ensures Unpack(d.data).None? ==> r.node == n
    ensures r.sends == Reply(d)
    ensures r.deliveries == Inbox(h, d)
  {
    match Unpack(d.data)
    case None => PollStep(n, [], [])
    case Some(pk) => HandlePacket(n, h, d.from, pk)
  }

  predicate AllAscii(ds: seq<Datagram>)
  {
    forall i :: 0 <= i < |ds| ==> IsAscii(ds[i].from.host)
  }

  /** The senders of the datagrams that decode. */
  function ValidSenders(h: Sha256, ds: seq<Datagram>): set<PeerId>
  {
    set i | 0 <= i < |ds| && IsAscii(ds[i].from.host) && Unpack(ds[i].data).Some? :: SenderId(h, ds[i].from)
  }

  function SenderOf(h: Sha256, d: Datagram): set<PeerId>
  {
    if IsAscii(d.from.host) && Unpack(d.data).Some? then {SenderId(h, d.from)} else {}
  }

  lemma ValidSendersCons(h: Sha256, ds: seq<Datagram>)
    requires ds != []
    ensures ValidSenders(h, ds) == SenderOf(h, ds[0]) + ValidSenders(h, ds[1..])
  {
    var tail := ds[1..];
    forall id | id in ValidSenders(h, ds)
      ensures id in SenderOf(h, ds[0]) + ValidSenders(h, tail)
    {
      var i :| 0 <= i < |ds| && IsAscii(ds[i].from.host) && Unpack(ds[i].data).Some? && id == SenderId(h, ds[i].from);
      if i > 0 {
        assert ds[i] == tail[i - 1];
      }
    }
    forall id | id in ValidSenders(h, tail)
      ensures id in ValidSenders(h, ds)
    {
      var i :| 0 <= i < |tail| && IsAscii(tail[i].from.host) && Unpack(tail[i].data).Some? && id == SenderId(h, tail[i].from);
      assert tail[i] == ds[i + 1];
    }
  }

  /** Handling one datagram keeps the table invariant. */
  lemma ReceiveKeepsValid(n: Node, h: Sha256, d: Datagram)
    requires IsAscii(d.from.host)
    ensures Valid(n, h) ==> Valid(Receive(n, h, d).node, h)
  {
    if !Valid(n, h) {
      return;
    }
    var after := Receive(n, h, d).node.peers;
    forall k | k in after
      ensures RecordFits(h, k, after[k])
    {
      if k !in n.peers {
        assert k == SenderId(h, d.from);
      }
    }
  }

  /** What is owed to one datagram, read off the datagram alone: an ACK
      with the same id, back to the sender, for a PING that decodes, and
      nothing for anything else. */
  function Reply(d: Datagram): seq<Send>
  {
    match Unpack(d.data)
    case None => []
    case Some(pk) => if pk.ptype == Ping then [Send(ControlPacket(Ack, pk.id), d.from)] else []
  }

  /** The replies owed to a queue of datagrams, in arrival order. */
  function Answers(ds: seq<Datagram>): seq<Send>
  {
    if ds == [] then [] else Reply(ds[0]) + Answers(ds[1..])
  }

  /** What one datagram hands to the application: the payload of a MESSAGE
      that decodes, with its sender's identifier, and nothing otherwise. */
  function Inbox(h: Sha256, d: Datagram): seq<Delivery>
    requires IsAscii(d.from.host)
  {
    match Unpack(d.data)
    case None => []
    case Some(pk) => if pk.ptype == Message then [Delivery(SenderId(h, d.from), pk.payload)] else []
  }

  /** The messages a queue of datagrams hands to the application, in arrival order. */
  function Messages(h: Sha256, ds: seq<Datagram>): seq<Delivery>
    requires AllAscii(ds)
  {
    if ds == [] then [] else Inbox(h, ds[0]) + Messages(h, ds[1..])
  }

  /** The inbound drain of poll: every datagram in arrival order. Each
      decodable PING is answered and each decodable MESSAGE delivered, in
      order, and existing records are never altered. */
  function Drain(n: Node, h: Sha256, ds: seq<Datagram>): (r: PollStep)
    requires AllAscii(ds)
    ensures r.node == n.(peers := r.node.peers)
    ensures Extends(n.peers, r.node.peers)
    ensures r.sends == Answers(ds)
    ensures r.deliveries == Messages(h, ds)
    decreases |ds|
  {
    if ds == [] then
      PollStep(n, [], [])
    else
      var first := Receive(n, h, ds[0]);
      var rest := Drain(first.node, h, ds[1..]);
      PollStep(rest.node, first.sends + rest.sends, first.deliveries + rest.deliveries)
  }

  /** One datagram adds its sender, with a fresh counter, when it decodes. */
  lemma ReceiveAddsSender(n: Node, h: Sha256, d: Datagram)
    requires IsAscii(d.from.host)
    ensures Receive(n, h, d).node.peers.Keys == n.peers.Keys + SenderOf(h, d)
    ensures forall k :: k in Receive(n, h, d).node.peers && k !in n.peers ==> Receive(n, h, d).node.peers[k].nextPacketId == 0
  {
  }

  /** Draining adds exactly the senders of the datagrams that decode. */
  lemma {:induction false} DrainAddsSenders(n: Node, h: Sha256, ds: seq<Datagram>)
    requires AllAscii(ds)
    ensures Drain(n, h, ds).node.peers.Keys == n.peers.Keys + ValidSenders(h, ds)
    decreases |ds|
  {
    if ds != [] {
      var first := Receive(n, h, ds[0]);
      DrainAddsSenders(first.node, h, ds[1..]);
      ValidSendersCons(h, ds);
      ReceiveAddsSender(n, h, ds[0]);
    }
  }

  /** Every peer the drain adds starts with a fresh counter. */
  lemma {:induction false} DrainAddsFreshRecords(n: Node, h: Sha256, ds: seq<Datagram>)
    requires AllAscii(ds)
    ensures forall k :: k in Drain(n, h, ds).node.peers && k !in n.peers ==> Drain(n, h, ds).node.peers[k].nextPacketId == 0
    decreases |ds|
  {
    if ds != [] {
      var first := Receive(n, h, ds[0]);
      DrainAddsFreshRecords(first.node, h, ds[1..]);
      ReceiveAddsSender(n, h, ds[0]);
    }
  }

  lemma {:induction false} DrainKeepsValid(n: Node, h: Sha256, ds: seq<Datagram>)
    requires AllAscii(ds)
    ensures Valid(n, h) ==> Valid(Drain(n, h, ds).node, h)
    decreases |ds|
  {
    if ds != [] && Valid(n, h) {
      ReceiveKeepsValid(n, h, ds[0]);
      DrainKeepsValid(Receive(n, h, ds[0]).node, h, ds[1..]);
    }
  }

  /** Every reply owed to a queue is an ACK. */
  lemma {:induction false} AnswersAreAcks(ds: seq<Datagram>)
    ensures forall j :: 0 <= j < |Answers(ds)| ==> IsAckPacket(Answers(ds)[j].packet)
    decreases |ds|
  {
    if ds != [] {
      AnswersAreAcks(ds[1..]);
      var first, rest := Reply(ds[0]), Answers(ds[1..]);
      assert Answers(ds) == first + rest;
      forall j | 0 <= j < |Answers(ds)|
        ensures IsAckPacket(Answers(ds)[j].packet)
      {
        if j >= |first| {
          assert Answers(ds)[j] == rest[j - |first|];
        }
      }
    }
  }

  /** A datagram's message carries the identifier of its sender. */
  lemma InboxFromSender(h: Sha256, d: Datagram)
    requires IsAscii(d.from.host)
    ensures forall j :: 0 <= j < |Inbox(h, d)| ==> Inbox(h, d)[j].from in SenderOf(h, d)
  {
  }

  /** Every message a queue delivers comes from the sender of a datagram that decodes. */
  lemma {:induction false} MessagesFromSenders(h: Sha256, ds: seq<Datagram>)
    requires AllAscii(ds)
    ensures forall j :: 0 <= j < |Messages(h, ds)| ==> Messages(h, ds)[j].from in ValidSenders(h, ds)
    decreases |ds|
  {
    if ds != [] {
      var tail := ds[1..];
      MessagesFromSenders(h, tail);
      InboxFromSender(h, ds[0]);
      ValidSendersCons(h, ds);
      assert Messages(h, ds) == Inbox(h, ds[0]) + Messages(h, tail);
      FromsConcat(Inbox(h, ds[0]), Messages(h, tail), SenderOf(h, ds[0]), ValidSenders(h, tail));
    }
  }

  lemma FromsConcat(first: seq<Delivery>, rest: seq<Delivery>, a: set<PeerId>, b: set<PeerId>)
    requires forall j :: 0 <= j < |first| ==> first[j].from in a
    requires forall j :: 0 <= j < |rest| ==> rest[j].from in b
    ensures forall j :: 0 <= j < |first + rest| ==> (first + rest)[j].from in a + b
  {
    forall j | 0 <= j < |first + rest|
      ensures (first + rest)[j].from in a + b
    {
      if j >= |first| {
        assert (first + rest)[j] == rest[j - |first|];
      }
    }
  }

  /** Everything the drain sends is an ACK, and every message it delivers
      comes from a peer in the table afterwards. */
  lemma DrainAcksAndKnownSenders(n: Node, h: Sha256, ds: seq<Datagram>)
    requires AllAscii(ds)
    ensures forall j :: 0 <= j < |Drain(n, h, ds).sends| ==> IsAckPacket(Drain(n, h, ds).sends[j].packet)
    ensures forall j :: 0 <= j < |Drain(n, h, ds).deliveries| ==> Drain(n, h, ds).deliveries[j].from in Drain(n, h, ds).node.peers
  {
    AnswersAreAcks(ds);
    MessagesFromSenders(h, ds);
    DrainAddsSenders(n, h, ds);
  }

  /** poll: the broadcast tick, then the inbound drain; the retransmission
      pass is empty and does nothing. */
  function Poll(n: Node, h: Sha256, now: int, inbound: seq<Datagram>): (r: PollStep)
    requires AllAscii(inbound)
    ensures r.node.broadcast == n.broadcast && r.node.port == n.port
    ensures BroadcastDue(n, now) ==>
      && r.node.lastBroadcast == now
      && |r.sends| >= 1
      && r.sends[0].to == Address(BROADCAST_HOST, n.port)
      && Unpack(r.sends[0].packet) == Some(Packet(Ping, 0, []))
      && (forall j :: 1 <= j < |r.sends| ==> IsAckPacket(r.sends[j].packet))
      && r.sends[1..] == Answers(inbound)
    ensures !BroadcastDue(n, now) ==>
      && r.node.lastBroadcast == n.lastBroadcast
      && (forall j :: 0 <= j < |r.sends| ==> IsAckPacket(r.sends[j].packet))
      && r.sends == Answers(inbound)
    ensures r.deliveries == Messages(h, inbound)
    ensures Extends(n.peers, r.node.peers)
    ensures r.node.peers.Keys == n.peers.Keys + ValidSenders(h, inbound)
    ensures Valid(n, h) ==> Valid(r.node, h)
  {
    var tick := BroadcastTick(n, now);
    var drained := Drain(tick.node, h, inbound);
    DrainAddsSenders(tick.node, h, inbound);
    DrainKeepsValid(tick.node, h, inbound);
    AnswersAreAcks(inbound);
    PollStep(drained.node, tick.sends + drained.sends, drained.deliveries)
  }

  /** addPeer: for an address not yet known, a record is created, a PING
      with the record's first packet id (0) goes to it, and the record is
      stored with its counter at 1; a known address changes nothing. */
  function AddPeer(n: Node, h: Sha256, ip: string, port: int): (r: Effect)
    ensures !IsAscii(ip) ==> r == Effect(n, [], Some(NonAsciiHost(ip)))
    ensures IsAscii(ip) ==>
      var id := SenderId(h, Address(ip, port));
      && r.raised == None
      && (id in n.peers ==> r.node == n && r.sends == [])
      && (id !in n.peers ==>
            && r.node == n.(peers := n.peers[id := PeerRecord(id, Address(ip, port), 1)])
            && |r.sends| == 1
            && r.sends[0].to == Address(ip, port)
            && Unpack(r.sends[0].packet) == Some(Packet(Ping, 0, [])))
  {
    match AddrToPeerId(h, ip, port)
    case Failure(e) => Effect(n, [], Some(e))
    case Success(id) =>
      if id in n.peers then Effect(n, [], None)
      else
        var g := GenerateNextPacketId(NewRecord(id, Address(ip, port)));
        assert g.packetId == 0 && g.record == PeerRecord(id, Address(ip, port), 1);
        Effect(n.(peers := n.peers[id := g.record]), [Send(ControlPacket(Ping, g.packetId), g.record.address)], None)
  }

  /** sendMessage: a malformed identifier raises MalformedPeerId and an
      unknown one InaccessiblePeer, both with nothing sent or changed; for a
      known peer (looked up in lower case) the peer's counter advances and
      one MESSAGE carrying the previous counter goes to it. The counter is
      taken before framing, so an oversized message still consumes an id
      while raising PayloadTooLarge and sending nothing. */
  function SendMessage(n: Node, peerId: string, message: seq<byte>): (r: Effect)
    ensures !SanitizePeerId(peerId) ==> r == Effect(n, [], Some(MalformedPeerId(peerId)))
    ensures SanitizePeerId(peerId) && Lower(peerId) !in n.peers ==>
      r == Effect(n, [], Some(InaccessiblePeer(Lower(peerId))))
    ensures SanitizePeerId(peerId) && Lower(peerId) in n.peers ==>
      var key := Lower(peerId);
      var rec := n.peers[key];
      && r.node == n.(peers := n.peers[key := rec.(nextPacketId := (rec.nextPacketId + 1) % PACKET_ID_MODULUS)])
      && (|message| <= MAX_PAYLOAD ==>
            && r.raised == None
            && |r.sends| == 1
            && r.sends[0].to == rec.address
            && Unpack(r.sends[0].packet) == Some(Packet(Message, rec.nextPacketId, message)))
      && (|message| > MAX_PAYLOAD ==> r.raised == Some(PayloadTooLarge) && r.sends == [])
  {
    if !SanitizePeerId(peerId) then Effect(n, [], Some(MalformedPeerId(peerId)))
    else
      var key := Lower(peerId);
      if key !in n.peers then Effect(n, [], Some(InaccessiblePeer(key)))
      else SendToRecord(n, key, message)
  }

  /** The part of sendMessage after the lookup has found the record. */
  function SendToRecord(n: Node, key: PeerId, message: seq<byte>): (r: Effect)
    requires key in n.peers
    ensures var rec := n.peers[key];
      && r.node == n.(peers := n.peers[key := rec.(nextPacketId := (rec.nextPacketId + 1) % PACKET_ID_MODULUS)])
      && (|message| <= MAX_PAYLOAD ==>
            && r.raised == None
            && |r.sends| == 1
            && r.sends[0].to == rec.address
            && Unpack(r.sends[0].packet) == Some(Packet(Message, rec.nextPacketId, message)))
      && (|message| > MAX_PAYLOAD ==> r.raised == Some(PayloadTooLarge) && r.sends == [])
  {
    var g := GenerateNextPacketId(n.peers[key]);
    var advanced := n.(peers := n.peers[key := g.record]);
    match Pack(Message, g.packetId, message)
    case Failure(e) => Effect(advanced, [], Some(e))
    case Success(packet) =>
      UnpackPack(Message, g.packetId, message);
      Effect(advanced, [Send(packet, g.record.address)], None)
  }

  /** sendMessage exactly as pex.py lines 217-224 write it (with the
      lower() reading of tolower()). Line 217 rebinds the identifier to the
      boolean verdict of the check, and line 218 then asks whether that
      boolean is a key of the peer table. The keys are text and no text
      equals a boolean, so the test always fails and line 224 raises with
      str() of the verdict: nothing is ever sent, and the node never changes. */
  function SendMessageAsWritten(n: Node, peerId: string, message: seq<byte>): (r: Effect)
    ensures r.node == n && r.sends == []
    ensures r.raised == Some(InaccessiblePeer(if SanitizePeerId(peerId) then "True" else "False"))
  {
    var verdict := SanitizePeerId(peerId);
    Effect(n, [], Some(InaccessiblePeer(if verdict then "True" else "False")))
  }

  /** The discrepancy: with a well-formed table and a peer it knows, the code
      as written refuses to send a message that fits, while the corrected
      sendMessage sends it to the peer's address. */
  lemma AsWrittenCannotReachKnownPeer(n: Node, h: Sha256, k: PeerId, message: seq<byte>)
    requires Valid(n, h)
    requires k in n.peers
    requires |message| <= MAX_PAYLOAD
    ensures SendMessageAsWritten(n, k, message).raised == Some(InaccessiblePeer("True"))
    ensures SendMessageAsWritten(n, k, message).sends == []
    ensures SendMessage(n, k, message).raised == None
    ensures |SendMessage(n, k, message).sends| == 1
  {
    SendToKnownPeer(n, h, k, message);
  }

  /** Adding the same address twice is the same as adding it once. */
  lemma AddPeerIdempotent(n: Node, h: Sha256, ip: string, port: int)
    requires IsAscii(ip)
    ensures var once := AddPeer(n, h, ip, port);
      AddPeer(once.node, h, ip, port) == Effect(once.node, [], None)
  {
  }

  lemma AddPeerKeepsValid(n: Node, h: Sha256, ip: string, port: int)
    requires Valid(n, h)
    ensures Valid(AddPeer(n, h, ip, port).node, h)
  {
    if IsAscii(ip) {
      var id := SenderId(h, Address(ip, port));
      if id !in n.peers {
        var after := AddPeer(n, h, ip, port).node.peers;
        assert after == n.peers[id := PeerRecord(id, Address(ip, port), 1)];
        forall k | k in after
          ensures RecordFits(h, k, after[k])
        {
          if k != id {
            assert after[k] == n.peers[k];
          }
        }
      }
    }
  }

  lemma SendMessageKeepsValid(n: Node, h: Sha256, peerId: string, message: seq<byte>)
    requires Valid(n, h)
    ensures Valid(SendMessage(n, peerId, message).node, h)
  {
    var after := SendMessage(n, peerId, message).node.peers;
    forall k | k in after
      ensures RecordFits(h, k, after[k])
    {
      assert k in n.peers && RecordFits(h, k, n.peers[k]);
    }
  }

  /** No operation ever forgets a peer. */
  lemma KnownPeersNeverShrink(n: Node, h: Sha256, ip: string, port: int, peerId: string, message: seq<byte>, now: int, inbound: seq<Datagram>)
    requires AllAscii(inbound)
    ensures KnownPeers(n) <= KnownPeers(AddPeer(n, h, ip, port).node)
    ensures KnownPeers(n) == KnownPeers(SendMessage(n, peerId, message).node)
    ensures KnownPeers(n) <= KnownPeers(Poll(n, h, now, inbound).node)
  {
  }

  /** In a consistent table, knownPeers lists only well-formed identifiers,
      each the identifier of the address stored with it. */
  lemma KnownPeersAreIds(n: Node, h: Sha256)
    requires Valid(n, h)
    ensures forall k :: k in KnownPeers(n) ==> IsPeerId(k) && SanitizePeerId(k)
    ensures forall k :: k in KnownPeers(n) ==> AddrToPeerId(h, n.peers[k].address.host, n.peers[k].address.port) == Success(k)
  {
    forall k | k in KnownPeers(n)
      ensures IsPeerId(k) && SanitizePeerId(k)
    {
      assert RecordFits(h, k, n.peers[k]);
    }
  }

  /** In a consistent table every key is accepted by the identifier check
      and is its own lower-case form, so a message to a known peer always
      goes out when it fits, and the upper-case spelling of the key reaches
      the same peer. */
  lemma SendToKnownPeer(n: Node, h: Sha256, k: PeerId, message: seq<byte>)
    requires Valid(n, h)
    requires k in n.peers
    requires |message| <= MAX_PAYLOAD
    ensures SendMessage(n, k, message).raised == None
    ensures SendMessage(n, k, message).sends[0].to == n.peers[k].address
    ensures SendMessage(n, Upper(k), message) == SendMessage(n, k, message)
  {
    assert RecordFits(h, k, n.peers[k]);
    var d: Digest := k;
    DigestIsSane(d);
    UpperCaseAccepted(d);
  }

  /** Adding a new peer and then messaging it: the PING used id 0, so the
      message carries id 1 and goes to the added address. */
  lemma AddThenSend(n: Node, h: Sha256, ip: string, port: int, message: seq<byte>)
    requires IsAscii(ip)
    requires SenderId(h, Address(ip, port)) !in n.peers
    requires |message| <= MAX_PAYLOAD
    ensures var id := SenderId(h, Address(ip, port));
      var sent := SendMessage(AddPeer(n, h, ip, port).node, id, message);
      && sent.raised == None
      && sent.sends[0].to == Address(ip, port)
      && Unpack(sent.sends[0].packet) == Some(Packet(Message, 1, message))
  {
    var id := SenderId(h, Address(ip, port));
    var d: Digest := id;
    DigestIsSane(d);
  }

  /** The discovery handshake: the PING that addPeer sends, once received
      by the other node, is answered with an ACK carrying the same id (0)
      back to the pinging node, which the other node now knows; that ACK,
      received back, changes nothing and sends nothing. */
  lemma PingIsAcknowledged(a: Node, b: Node, h: Sha256, addressA: Address, ip: string, port: int)
    requires IsAscii(ip) && IsAscii(addressA.host)
    requires SenderId(h, Address(ip, port)) !in a.peers
    ensures var added := AddPeer(a, h, ip, port);
      var atB := Receive(b, h, Datagram(added.sends[0].packet, addressA));
      && |atB.sends| == 1
      && atB.sends[0].to == addressA
      && Unpack(atB.sends[0].packet) == Some(Packet(Ack, 0, []))
      && SenderId(h, addressA) in atB.node.peers
      && var backAtA := Receive(added.node, h, Datagram(atB.sends[0].packet, Address(ip, port)));
        backAtA == PollStep(added.node, [], [])
  {
    var added := AddPeer(a, h, ip, port);
    PingAnswered(b, h, addressA, added.sends[0].packet);
    var atB := Receive(b, h, Datagram(added.sends[0].packet, addressA));
    AckOrPexFromKnownPeerIgnored(added.node, h, Address(ip, port), atB.sends[0].packet);
  }

  /** A PING datagram, whatever its payload, is answered with an ACK with
      its id, to its sender, who is known afterwards. */
  lemma PingAnswered(n: Node, h: Sha256, from: Address, packet: seq<byte>)
    requires IsAscii(from.host)
    requires Unpack(packet).Some? && Unpack(packet).value.ptype == Ping
    ensures var r := Receive(n, h, Datagram(packet, from));
      && |r.sends| == 1
      && r.sends[0].to == from
      && Unpack(r.sends[0].packet) == Some(Packet(Ack, Unpack(packet).value.id, []))
      && SenderId(h, from) in r.node.peers
  {
  }

  /** An ACK or a PEX packet from a peer already known, whatever its
      payload, changes nothing and sends nothing. */
  lemma AckOrPexFromKnownPeerIgnored(n: Node, h: Sha256, from: Address, packet: seq<byte>)
    requires IsAscii(from.host)
    requires SenderId(h, from) in n.peers
    requires Unpack(packet).Some? && Unpack(packet).value.ptype in {Ack, Pex}
    ensures Receive(n, h, Datagram(packet, from)) == PollStep(n, [], [])
  {
  }
}
