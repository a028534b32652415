/** Peer identity (pex.py lines 38-63): a peer is named by the SHA-256 hex
    digest of the text "<ip>:<port>", and identifiers supplied from outside
    are checked for shape before use. The hash itself is a parameter: any
    function from bytes to 64 lower-case hex characters. */
module PeerIdentity {
  import opened Results
  import opened Swarm
  import opened Text
  import opened Codec

  predicate IsLowerHex(c: char)
  {
    'a' <= c <= 'f' || '0' <= c <= '9'
  }

  /** The text form of a peer identifier: 64 lower-case hex characters. */
  predicate IsPeerId(s: string)
  {
    |s| == 64 && forall i :: 0 <= i < |s| ==> IsLowerHex(s[i])
  }

  /** What hashlib's hexdigest() of a SHA-256 returns. */
  type Digest = s: string | IsPeerId(s)
    witness seq(64, _ => '0')

  /** SHA-256 followed by hexdigest(), left uninterpreted. */
  type Sha256 = seq<byte> -> Digest

  predicate IsAscii(s: string)
  {
    forall i :: 0 <= i < |s| ==> s[i] as int < 128
  }

  /** bytearray(s, 'ascii') for text that has an ASCII encoding. */
  function AsciiBytes(s: string): (b: seq<byte>)
    requires IsAscii(s)
    ensures |b| == |s|
    ensures forall i :: 0 <= i < |s| ==> b[i] as int == s[i] as int
  {
    if s == [] then [] else [s[0] as int as byte] + AsciiBytes(s[1..])
  }

  lemma AsciiBytesInjective(a: string, b: string)
    requires IsAscii(a) && IsAscii(b)
    requires AsciiBytes(a) == AsciiBytes(b)
    ensures a == b
  {
    assert forall i :: 0 <= i < |a| ==> a[i] as int == AsciiBytes(a)[i] as int == b[i] as int;
  }

  const COLON: byte := 0x3A

  lemma DecimalIsAscii(n: int)
    ensures IsAscii(DecimalString(n))
    ensures forall i :: 0 <= i < |DecimalString(n)| ==> DecimalString(n)[i] != ':'
  {
  }

  /** The bytes fed to the hash: ip, a colon, then str(port). */
  function AddressBytes(ip: string, port: int): (r: seq<byte>)
    requires IsAscii(ip)
    ensures |r| == |ip| + 1 + |DecimalString(port)| && r[|ip|] == COLON
  {
    DecimalIsAscii(port);
    AsciiBytes(ip) + [COLON] + AsciiBytes(DecimalString(port))
  }

  /** The hashed bytes spell out "<ip>:<port>": the ip's characters, a
      colon, then the characters of str(port). */
  lemma AddressBytesContents(ip: string, port: int)
    requires IsAscii(ip)
    ensures forall i :: 0 <= i < |ip| ==> AddressBytes(ip, port)[i] as int == ip[i] as int
    ensures AddressBytes(ip, port)[|ip|] as int == ':' as int
    ensures forall i :: 0 <= i < |DecimalString(port)| ==>
      AddressBytes(ip, port)[|ip| + 1 + i] as int == DecimalString(port)[i] as int
  {
  }

  /** _addrToPeerId: the hex SHA-256 of "<ip>:<port>"; bytearray(ip, 'ascii')
      raises for a host with a non-ASCII character. Whatever the hash, the
      result passes the identifier check. */
  function AddrToPeerId(h: Sha256, ip: string, port: int): (r: Result<PeerId, Error>)
    ensures r.Failure? <==> !IsAscii(ip)
    ensures r.Failure? ==> r.error == NonAsciiHost(ip)
    ensures r.Success? ==> IsPeerId(r.value) && SanitizePeerId(r.value)
    ensures r.Success? ==> r.value == h(AddressBytes(ip, port))
  {
    if IsAscii(ip) then
      var d := h(AddressBytes(ip, port));
      DigestIsSane(d);
      Success(d)
    else Failure(NonAsciiHost(ip))
  }

  /** "<ip>:<port>" determines ip and port: the last colon separates them,
      since str(port) has none. So two addresses share an identifier only
      when the hash collides on two different inputs. */
  lemma AddressBytesInjective(ip1: string, port1: int, ip2: string, port2: int)
    requires IsAscii(ip1) && IsAscii(ip2)
    requires AddressBytes(ip1, port1) == AddressBytes(ip2, port2)
    ensures ip1 == ip2 && port1 == port2
  {
    DecimalIsAscii(port1);
    DecimalIsAscii(port2);
    var y1, y2 := AsciiBytes(DecimalString(port1)), AsciiBytes(DecimalString(port2));
    ColonFree(port1);
    ColonFree(port2);
    LastColonSplits(AsciiBytes(ip1), y1, AsciiBytes(ip2), y2);
    AsciiBytesInjective(ip1, ip2);
    AsciiBytesInjective(DecimalString(port1), DecimalString(port2));
    DecimalInjective(port1, port2);
  }

  lemma ColonFree(port: int)
    ensures IsAscii(DecimalString(port))
    ensures forall i :: 0 <= i < |DecimalString(port)| ==> AsciiBytes(DecimalString(port))[i] != COLON
  {
    DecimalIsAscii(port);
  }

  /** The position of the last occurrence of c in w, or -1. */
  function LastIndexOf(w: seq<byte>, c: byte): int
  {
    if w == [] then -1
    else if w[|w| - 1] == c then |w| - 1
    else LastIndexOf(w[..|w| - 1], c)
  }

  lemma {:induction false} LastIndexBeforeTail(x: seq<byte>, c: byte, y: seq<byte>)
    requires forall i :: 0 <= i < |y| ==> y[i] != c
    ensures LastIndexOf(x + [c] + y, c) == |x|
    decreases |y|
  {
    var w := x + [c] + y;
    if y != [] {
      var shorter := y[..|y| - 1];
      assert w[..|w| - 1] == x + [c] + shorter;
      LastIndexBeforeTail(x, c, shorter);
    }
  }

  /** A separator that the tail never contains marks a unique split point. */
  lemma LastColonSplits(x1: seq<byte>, y1: seq<byte>, x2: seq<byte>, y2: seq<byte>)
    requires x1 + [COLON] + y1 == x2 + [COLON] + y2
    requires forall i :: 0 <= i < |y1| ==> y1[i] != COLON
    requires forall i :: 0 <= i < |y2| ==> y2[i] != COLON
    ensures x1 == x2 && y1 == y2
  {
    var w := x1 + [COLON] + y1;
    LastIndexBeforeTail(x1, COLON, y1);
    LastIndexBeforeTail(x2, COLON, y2);
    assert x1 == w[..|x1|] == x2;
    assert y1 == w[|x1| + 1..] == y2;
  }

  /** Two different addresses that receive the same identifier exhibit a
      SHA-256 collision: two different inputs with the same digest. */
  lemma SharedIdIsCollision(h: Sha256, a: Address, b: Address)
    requires a != b
    requires AddrToPeerId(h, a.host, a.port).Success?
    requires AddrToPeerId(h, a.host, a.port) == AddrToPeerId(h, b.host, b.port)
    ensures IsAscii(a.host) && IsAscii(b.host)
    ensures AddressBytes(a.host, a.port) != AddressBytes(b.host, b.port)
    ensures h(AddressBytes(a.host, a.port)) == h(AddressBytes(b.host, b.port))
  {
    if AddressBytes(a.host, a.port) == AddressBytes(b.host, b.port) {
      AddressBytesInjective(a.host, a.port, b.host, b.port);
    }
  }

  /** ASCII lower-casing of one character. */
  function AsciiLower(c: char): char
  {
    if 'A' <= c <= 'Z' then (c as int + 32) as char else c
  }

  function Lower(s: string): (r: string)
    ensures |r| == |s|
    ensures forall i :: 0 <= i < |s| ==> r[i] == AsciiLower(s[i])
  {
    seq(|s|, i requires 0 <= i < |s| => AsciiLower(s[i]))
  }

  /** The character scan of the check: every character a hex digit. */
  function AllLowerHex(s: string): (ok: bool)
    ensures ok <==> forall i :: 0 <= i < |s| ==> IsLowerHex(s[i])
  {
    s == [] || (IsLowerHex(s[0]) && AllLowerHex(s[1..]))
  }

  /** _sanitizePeerId: the length must be 64, and then every character,
      once lower-cased, must be a hex digit; so upper-case hex passes. */
  function SanitizePeerId(peerId: string): (ok: bool)
    ensures ok <==> IsPeerId(Lower(peerId))
    ensures !ok ==> |peerId| != 64 || exists i :: 0 <= i < |peerId| && !IsLowerHex(AsciiLower(peerId[i]))
  {
    if |peerId| != 64 then false else AllLowerHex(Lower(peerId))
  }

  /** Every digest passes the check and is already in lower case. */
  lemma DigestIsSane(d: Digest)
    ensures SanitizePeerId(d)
    ensures Lower(d) == d
  {
    assert forall i :: 0 <= i < |d| ==> AsciiLower(d[i]) == d[i];
  }

  /** Lower-casing an accepted identifier yields a lower-case identifier that
      is itself accepted and unchanged by lower-casing again. */
  lemma SanitizedLowerIsCanonical(peerId: string)
    requires SanitizePeerId(peerId)
    ensures IsPeerId(Lower(peerId))
    ensures SanitizePeerId(Lower(peerId))
    ensures Lower(Lower(peerId)) == Lower(peerId)
  {
    DigestIsSane(Lower(peerId));
  }

  function AsciiUpper(c: char): char
  {
    if 'a' <= c <= 'z' then (c as int - 32) as char else c
  }

  function Upper(s: string): (r: string)
    ensures |r| == |s|
    ensures forall i :: 0 <= i < |s| ==> r[i] == AsciiUpper(s[i])
  {
    seq(|s|, i requires 0 <= i < |s| => AsciiUpper(s[i]))
  }

  /** The check does not care about case: the upper-case spelling of any
      identifier passes and lower-cases back to that identifier. */
  lemma UpperCaseAccepted(d: Digest)
    ensures SanitizePeerId(Upper(d))
    ensures Lower(Upper(d)) == d
  {
    assert forall i :: 0 <= i < |d| ==> AsciiLower(AsciiUpper(d[i])) == d[i];
  }
}
