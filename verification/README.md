# PEX swarm node — a Dafny model

This project models the core of a small peer-to-peer "swarm" library written
in Python. The core is the peer-exchange node `PexNode` in `pex.py` and the
command parsing of the interactive shell in `example.py`.

A node talks to its peers over UDP. Every datagram it sends is framed the same
way: the magic bytes `seth`, one packet-type byte, a big-endian 16-bit packet
id, and then the payload. There are four packet types: MESSAGE (0), ACK (1),
PING (2) and PEX (3). A whole packet is at most 1024 bytes.

A peer is named by the SHA-256 hex digest of the text `<ip>:<port>`. The node
keeps one record per peer. Each record holds a 16-bit counter that hands out
packet ids, wrapping from 65535 back to 0.

- `addPeer` pings a new address and stores its record.
- `sendMessage` frames an application message to a known peer.
- `poll` does three things: it broadcasts a PING when that is due, it handles
  every queued inbound datagram, and it runs an (empty) retransmission pass.
- Handling a datagram works like this. A MESSAGE is passed to the
  application. A PING is answered with an ACK that carries the same id. ACK
  and PEX packets do nothing. In every case an unknown sender becomes a peer.

The shell reads `m <peer> <message>` and `a <host>:<port>` commands.

The model is purely functional:

- A node is a value `PexNode.Node`. It holds the peer table, the time of the
  last broadcast, the broadcast switch and the port.
- Each operation returns the new node together with the datagrams it sends.
  For `poll`, it also returns the messages it hands to the receive callback.
  The application-facing calls also return the exception they raise. The node
  returned with that exception may still have changed: `sendMessage`
  advances the counter before the payload-size check.
- The socket, the clock and SHA-256 are all parameters. Inbound datagrams
  arrive as a sequence. The clock is an integer `now`. The hash `h` is any
  function from bytes to 64 lower-case hex characters.

Modules:

| module | file | contents |
|---|---|---|
| `Results` | results.dfy | `Option`, `Result` |
| `Swarm` | swarm.dfy | peer ids, addresses, and the exceptions (`MalformedPeerId`, `InaccessiblePeer`, the oversized-payload exception, the non-ASCII host error) |
| `Text` | text.dfy | the Python string operations the core relies on: `str.strip`, `str.find`, `str.split` with one separator, `int()` of base-10 text, `str()` of an integer |
| `Codec` | codec.dfy | packet framing (`_packPacket`, `_unpackPacketHeader`) |
| `PeerIdentity` | peer_identity.dfy | `_addrToPeerId` and `_sanitizePeerId` |
| `PeerRecords` | peer_record.dfy | `_PeerRecord` and its packet-id counter |
| `PexNode` | pex_node.dfy | the node: `__init__`, `_handlePacket`, `poll`, `addPeer`, `sendMessage`, `knownPeers` |
| `Commands` | commands.dfy | `parseAddress`, `handleMessageCommand`, `handleAddPeerCommand` |

### Reading of the source

The source has several slips that stop it running as written. The model
follows the evident intent in each case:

- `pex.py:57`: `tolower()` is read as `lower()`.
- `pex.py:148`: `result[2]` is read as the `payload` argument.
- `pex.py:157`: the ACK is framed with an empty payload.
- `pex.py:168`: `_peers` is read as `self._peers`.
- `pex.py:189`: `_handlePacket` is read as `self._handlePacket`.
- `pex.py:224`: `InaccessiblePeerException` is read as
  `swarm.InaccessiblePeerException`.
- `example.py:94`: `parsePeer` is read as `parseAddress`.
- `pex.py:217-218`: the code looks up the boolean that the identifier check
  returns. It is read as follows instead: raise `MalformedPeerId` when the
  check fails, otherwise look up the lower-cased identifier. The code as
  written is modelled too (see Findings).

Some behaviours of the code are easy to misread. The model states them as
the code has them:

- The identifier check lower-cases before it tests the characters. So
  upper-case hex identifiers are accepted (`PeerIdentity.UpperCaseAccepted`)
  and looked up in lower case.
- The broadcast test is strict: a broadcast is due when
  `lastBroadcast < now - 2`.
- A new node dates its last broadcast two units back. So with an integer
  clock, its first poll broadcasts only at a time strictly after its
  creation.
- The oversized-payload error of `_packPacket` is a plain `Exception` in the
  code. Here it is the error value `PayloadTooLarge`.

## Model

| member | source | states |
|---|---|---|
| `Text.Trim` | example.py:56 | trimming returns the infix of the text that neither starts nor ends with a blank of the chosen class, and removes only such blanks on either side; `str.strip()` (`Strip`) removes what `str.isspace()` accepts, `int()` (`IntStrip`) what it skips |
| `Text.TrimPadded` | example.py:76 | blanks added around trimmed text are exactly what trimming removes |
| `Text.Find` | example.py:69 | `str.find` returns -1 exactly when the character is absent, and otherwise the index of its first occurrence |
| `Text.Split` | example.py:51 | `split` always gives at least one piece; the pieces are characterised by `SplitPiecesFree`, `SplitJoin` and `Commands.SplitInTwo` |
| `Text.SplitJoin` | example.py:51 | putting the separator back between the pieces of `split` gives the original text |
| `Text.SplitPiecesFree` | example.py:51 | no piece of `split` contains the separator |
| `Text.ParseInt` | example.py:56 | `int()` accepts a text exactly when, once the whitespace it skips is removed, it is an optional sign followed by digits with single underscores between them, and reads it as the signed value of those digits; any other text is refused |
| `Text.DecimalString` | pex.py:45 | `str(n)` is a non-empty run of digits without leading zeros (except `0` itself), with a leading minus sign exactly when `n` is negative; with `ParseDecimal` (it reads back through `int()`) this fixes the text uniquely, and different numbers have different texts (`DecimalInjective`) |
| `Text.ParseDecimal` | example.py:56 | `int(str(n)) == n` for every integer |
| `Text.ParsePaddedDecimal` | example.py:56 | `int()` accepts the whitespace it skips around the decimal text of a number |
| `Text.ParsePaddedRun` | example.py:56 | `int()` reads any signed run, such as `+5`, `007` or `1_000`, as the number it denotes, whatever skipped whitespace surrounds it |
| `Text.SeparatorNotSkipped` | example.py:55-58 | a character from U+001C to U+001F in front of a number is removed by `strip()` but makes `int()` fail |
| `Text.DecimalInjective` | pex.py:45 | different ports have different decimal texts |
| `Codec.TypeOfCode` | pex.py:28-33 | a type byte names a packet type exactly when it is at most 3, and the type's code is that byte |
| `Codec.IdBytes` | pex.py:92 | the id field of `struct.pack('!BH', ...)` is two bytes, high byte first, whose big-endian value is the id |
| `Codec.IdOfBytes` | pex.py:74 | the id field of `struct.unpack('!BH', ...)` is the id whose quotient by 256 is the first byte and whose remainder is the second |
| `Codec.Pack` | pex.py:82-93 | framing fails exactly when the payload exceeds 1017 bytes, with the oversized-payload error; otherwise the result is 7 + payload bytes long (at most 1024), starts with `seth` and ends with the payload |
| `Codec.Unpack` | pex.py:65-80 | decoding fails exactly when the input is shorter than 7 bytes, lacks the magic prefix, or has a type byte above 3; otherwise type, big-endian id and payload are read from bytes 4, 5-6 and 7 onward |
| `Codec.IdOfBytesRoundTrip` | pex.py:74 | re-encoding a decoded 16-bit id gives back its two bytes |
| `Codec.UnpackPack` | pex.py:82-93 | decoding a framed packet gives back its type, id and payload, for every payload of at most 1017 bytes |
| `Codec.PackUnpack` | pex.py:65-80 | every decodable packet of at most 1024 bytes is exactly the framing of what it decodes to |
| `PeerIdentity.AsciiBytes` | pex.py:43 | ASCII encoding gives one byte per character with the character's code |
| `PeerIdentity.AddressBytes` | pex.py:41-45 | the hashed bytes are as long as `<ip>:<port>`, with the colon right after the ip; their contents are `AddressBytesContents`, and that they determine ip and port is `AddressBytesInjective` |
| `PeerIdentity.AddressBytesContents` | pex.py:41-45 | the hashed bytes spell `<ip>:<port>`: the ip's character codes, a colon, then the character codes of `str(port)` |
| `PeerIdentity.AddrToPeerId` | pex.py:38-46 | the identifier fails exactly for a non-ASCII host; otherwise it is the hash of the bytes of `<ip>:<port>`, which is 64 lower-case hex characters and passes the identifier check |
| `PeerIdentity.AddressBytesInjective` | pex.py:41-45 | the hashed text `<ip>:<port>` determines ip and port |
| `PeerIdentity.SharedIdIsCollision` | pex.py:38-46 | two different addresses with the same identifier exhibit a SHA-256 collision on two different inputs |
| `PeerIdentity.Lower` | pex.py:57 | lower-casing keeps the length and maps each character to its lower-case form |
| `PeerIdentity.AllLowerHex` | pex.py:60-63 | the character scan succeeds exactly when every character is a hex digit |
| `PeerIdentity.SanitizePeerId` | pex.py:48-63 | an identifier passes exactly when its lower-case form is 64 lower-case hex characters; a rejected one has the wrong length or a non-hex character |
| `PeerIdentity.DigestIsSane` | pex.py:46 | every hex digest passes the check and is unchanged by lower-casing |
| `PeerIdentity.SanitizedLowerIsCanonical` | pex.py:57-63 | the lower-case form of an accepted identifier is itself accepted and is a fixed point of lower-casing |
| `PeerIdentity.UpperCaseAccepted` | pex.py:56-62 | the upper-case spelling of any identifier passes and lower-cases back to the identifier |
| `PeerRecords.GenerateNextPacketId` | pex.py:107-110 | hands out the current counter and leaves the counter one further modulo 65536; identifier and address do not change |
| `PeerRecords.GenerateMany` | pex.py:107-110 | k calls hand out k ids |
| `PeerRecords.GenerateManyCounts` | pex.py:107-110 | the j-th of k calls hands out the starting counter plus j modulo 65536, and the counter ends k steps further on |
| `PeerRecords.FreshRecordCycles` | pex.py:98-110 | a new record hands out 0, 1, ..., 65535, 0, ...: the j-th id is j mod 65536 |
| `PeerRecords.NoRepeatWithinCycle` | pex.py:109 | two calls fewer than 65536 calls apart never hand out the same id |
| `PexNode.NewNode` | pex.py:116-129 | a new node keeps the given port and broadcast switch, knows no peers and keeps the table invariant; it broadcasts at its first poll at any later time exactly when broadcasting is enabled, and never at or before its creation time |
| `PexNode.DefaultNode` | pex.py:116 | `PexNode()` with its defaults binds port 4141, has broadcasting on, knows no peers and broadcasts at its first poll after its creation |
| `PexNode.ControlPacket` | pex.py:157 | a header-only packet decodes to its type, id and empty payload, and is 7 bytes long |
| `PexNode.BroadcastTick` | pex.py:172-177 | when enabled and more than 2 units have passed, one PING with id 0 and empty payload goes to `<broadcast>` on the node's port and the time is recorded; otherwise nothing happens |
| `PexNode.BroadcastSpacing` | pex.py:174-175 | two broadcasts are more than 2 units apart |
| `PexNode.Register` | pex.py:166-168 | an unknown sender is added with a fresh record; existing records are untouched |
| `PexNode.HandlePacket` | pex.py:143-168 | a PING is answered by exactly one ACK with the same id to the sender; a MESSAGE is delivered once with its payload; ACK and PEX do nothing; in every case the sender is known afterwards and no existing record changes |
| `PexNode.Receive` | pex.py:184-189 | a datagram that does not decode leaves the node unchanged; otherwise only the peer table changes and no existing record is altered; whatever the table holds, one datagram sends exactly the reply it is owed (`Reply`) and delivers exactly its message (`Inbox`) |
| `PexNode.ReceiveKeepsValid` | pex.py:186-189 | handling one datagram keeps the table invariant (each record is filed under its identifier, and that identifier is the one derived from its address) |
| `PexNode.ReceiveAddsSender` | pex.py:186-189 | one datagram adds its sender, with counter 0, exactly when it decodes |
| `PexNode.Drain` | pex.py:179-191 | handling the queue changes only the peer table and never alters an existing record; what it sends is exactly the replies the queue is owed (`Answers`: one ACK with the same id back to each decodable PING, in arrival order) and what it delivers is exactly the queue's messages (`Messages`: the payload of each decodable MESSAGE with its sender's identifier, in arrival order) |
| `PexNode.DrainAddsSenders` | pex.py:179-191 | after the queue is handled, the known peers are the earlier ones plus the senders of the datagrams that decode |
| `PexNode.DrainAddsFreshRecords` | pex.py:168 | every peer added while handling the queue starts with counter 0 |
| `PexNode.DrainKeepsValid` | pex.py:179-191 | handling the queue keeps the table invariant |
| `PexNode.AnswersAreAcks` | pex.py:154-158 | every reply owed to a queue is an ACK |
| `PexNode.MessagesFromSenders` | pex.py:145-149 | every message a queue delivers carries the identifier of the sender of a datagram that decodes |
| `PexNode.DrainAcksAndKnownSenders` | pex.py:179-191 | everything the drain sends is an ACK, and every message it delivers comes from a peer in the table afterwards |
| `PexNode.Poll` | pex.py:170-195 | a due broadcast is the first send and the time is recorded; the remaining sends are exactly the ACKs owed to the queue (`Answers`), and the deliveries exactly its messages (`Messages`); known peers grow by exactly the decodable senders; the invariant is kept |
| `PexNode.AddPeer` | pex.py:197-212 | a known address changes nothing; a new one is stored with counter 1 after one PING with id 0 goes to it; a non-ASCII host raises with no change |
| `PexNode.AddPeerIdempotent` | pex.py:200-201 | adding an address a second time changes nothing and sends nothing |
| `PexNode.AddPeerKeepsValid` | pex.py:197-212 | adding a peer keeps the table invariant |
| `PexNode.SendMessage` | pex.py:214-224 | a malformed id raises `MalformedPeerId` and an unknown one `InaccessiblePeer`, both with nothing changed or sent; for a known peer (found in lower case) only that peer's counter advances, and one MESSAGE with the old counter goes to its address, or the oversized-payload error is raised with nothing sent |
| `PexNode.SendToRecord` | pex.py:219-222 | the send path after the lookup: the counter advances, and the packet carries the old counter and the message |
| `PexNode.SendMessageKeepsValid` | pex.py:214-224 | sending keeps the table invariant |
| `PexNode.KnownPeersNeverShrink` | pex.py:226-228 | `addPeer` and `poll` never forget a peer, and `sendMessage` leaves the set unchanged |
| `PexNode.KnownPeersAreIds` | pex.py:226-228 | in a consistent table every known peer is a well-formed identifier, and it is the identifier of the address stored with it |
| `PexNode.KnownPeers` | pex.py:226-228 | an id is listed exactly when the table holds a record for it; that the list only grows is `KnownPeersNeverShrink`, and that it holds well-formed identifiers of the records' addresses is `KnownPeersAreIds` |
| `PexNode.SendToKnownPeer` | pex.py:217-222 | a message that fits always reaches a known peer, and the upper-case spelling of its identifier reaches the same peer |
| `PexNode.AddThenSend` | pex.py:207-220 | after adding a new peer (the PING used id 0), the first message to it carries id 1 and goes to the added address |
| `PexNode.PingAnswered` | pex.py:154-158 | a received PING, whatever its payload, is answered by an ACK with its id and an empty payload, to its sender, who is known afterwards |
| `PexNode.AckOrPexFromKnownPeerIgnored` | pex.py:151-168 | an ACK or PEX packet from a known peer, whatever its payload, changes nothing, sends nothing and delivers nothing |
| `PexNode.PingIsAcknowledged` | pex.py:206-209 | the discovery handshake: the PING from `addPeer` is answered with an ACK of id 0 back to the pinging node, and that ACK changes nothing at the pinging node |
| `PexNode.SendMessageAsWritten` | pex.py:214-224 | the code as written never sends, leaves the node unchanged, and raises `InaccessiblePeer` of the verdict: `"True"` exactly when the identifier passes the check, `"False"` otherwise |
| `PexNode.AsWrittenCannotReachKnownPeer` | pex.py:217-218 | for a known peer and a message that fits, the code as written refuses while the corrected `sendMessage` sends exactly one packet |
| `Commands.SplitInTwo` | example.py:51-53 | `split(':')` gives two parts exactly when the text has one colon, and the parts are the text on either side of it |
| `Commands.ParseAddress` | example.py:45-58 | an address comes back exactly when the text has a single colon and `int()` accepts what follows it; it is the stripped text before the colon with that port |
| `Commands.ParseAddressRoundTrip` | example.py:45-58 | `<host>:<port>` parses back to the address for any host without a colon or surrounding whitespace |
| `Commands.HandleMessageCommand` | example.py:60-76 | any command without the `m ` prefix is refused; an accepted command is `m `, a non-empty peer without spaces, a space and a non-empty rest, and the message is that rest stripped |
| `Commands.MessageCommandAccepted` | example.py:67-76 | every command of that shape is accepted with that peer and the stripped rest |
| `Commands.MessageCommandRefused` | example.py:69-72 | an empty peer, or a peer with nothing after it, is refused |
| `Commands.HandleAddPeerCommand` | example.py:85-99 | any command without the `a ` prefix is refused; otherwise the stripped rest is parsed as an address and reported as invalid exactly when that fails |
| `Commands.AddCommandRoundTrip` | example.py:92-96 | `a <host>:<port>` adds exactly the address it spells out |

## Left out

- Sockets: binding, `SO_BROADCAST`, non-blocking mode and closing are not modelled. `sendto` is recorded as a `Send` and never fails. `recvfrom` is a given sequence of datagrams; the 1024-byte receive buffer, which would truncate longer datagrams, is not modelled.
- `time.clock()` is the integer parameter `now`. Its meaning (processor time on the platforms the code targets) is not modelled.
- `lastActivityTime`, `touch` and `_TIMEOUT_LENGTHS` are not modelled, because nothing in the core reads them.
- The retransmission loop over `_unackedMessages` has an empty body. The PEX packet handler is a no-op. Both are modelled as doing nothing.
- The receive callback is foreign code. Each call of it is recorded as a `Delivery`. The attribute is never assigned in the source; the model assumes the application has set it.
- SHA-256 is the parameter `h`. Only its output shape (64 lower-case hex characters) is assumed.
- Hosts: inbound datagrams are assumed to come from ASCII hosts (`PexNode.Drain` requires this), as `recvfrom` reports a dotted IPv4 text. `addPeer` with a non-ASCII host is modelled as the `NonAsciiHost` error, which stands for the encoding exception of `bytearray(ip, 'ascii')`.
- PeerIdentity.Lower: only ASCII letters are lower-cased. The identifier check accepts only ASCII hex after lower-casing, and the only non-ASCII characters whose lower-case forms contain ASCII letters are KELVIN SIGN (to `k`) and capital I with dot above (to `i` and a combining dot); neither gives a hex digit. So the verdict is the same as Python's full Unicode `lower()`.
- Text.ParseInt: accepts ASCII digits only. Python's `int()` also accepts other Unicode decimal digits; they are not modelled. Nor is CPython's limit on the length of integer text (4300 digits by default since Python 3.11), above which `int()` raises `ValueError`.
- Text.DecimalString: has no length limit. CPython's `str()` of an integer raises `ValueError` above 4300 digits by default since Python 3.11; the ports the core converts are far shorter.
- PexNode.AddPeer: `sendto` never fails in the model, so the record is always stored. The source stores it only after `sendto` returns (`pex.py:209-212`). A port out of range, such as the 70000 of `a 1.2.3.4:70000` (`parseAddress` does no range check), makes `sendto` raise `OverflowError` there, and nothing is stored.
- PexNode.NewNode: the `ip` argument (default `'0.0.0.0'`) only chooses the interface the socket binds to, and binding is not modelled, so the node has no ip field. The other defaults (port 4141, broadcasting on) are `PexNode.DefaultNode`.
- The `ValueError` branch of `_handlePacket` (`pex.py:164`) is unreachable. The packet type has already been checked against 3, and the model's packet type is an enumeration.
- The shell passes a `str` message to `sendMessage`, where framing adds it to `bytes`. That would raise a `TypeError`. The model keeps message text and payload bytes apart, so the composition of the shell with the node is not modelled.
- The interactive loop, help text, printing of peers, the poll thread and its lock are not modelled. Neither is the base class `SwarmNode` beyond the exceptions and `knownPeers`.
- PexNode.SendMessageAsWritten: takes `tolower` as `lower`. Read literally, `tolower` raises `AttributeError` for every 64-character identifier before the lookup is reached. A dictionary keyed by text never contains a boolean, so the membership test at `pex.py:218` is modelled as always false.

## Findings

| source | as written | input that shows it | evidently intended | confidence | as-written member | corrected member |
|---|---|---|---|---|---|---|
| pex.py:217-218 | `peerId = _sanitizePeerId(peerId)` replaces the identifier with the boolean verdict; `peerId in self._peers` then looks up `True` or `False`, which no text key equals | a node that knows peer `k` (for example after `addPeer`), then `sendMessage(k, b'hi')`: the call raises `InaccessiblePeerException(True)` and nothing is sent | raise `MalformedPeerIdException` when the check fails, otherwise look up and send to the lower-cased identifier | high (not executed) | `PexNode.SendMessageAsWritten`, `PexNode.AsWrittenCannotReachKnownPeer` | `PexNode.SendMessage` |
