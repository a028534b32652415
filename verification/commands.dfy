/** The parsing half of the example shell (example.py lines 45-99): reading
    "<host>:<port>" into an address, and taking the "m" and "a" commands
    apart. What the shell then prints or calls on the node is not modelled. */
module Commands {
  import opened Results
  import opened Swarm
  import opened Text

  /** parseAddress: split on ':' into exactly two parts, strip the host and
      read the port with int(); None where the source returns False. Both
      directions: an address comes back exactly when the text has one colon
      and int() accepts what follows it. */
  function ParseAddress(desc: string): (r: Option<Address>)
    ensures var k := Find(desc, ':');
      r.Some? <==> k >= 0 && ':' !in desc[k + 1..] && ParseInt(desc[k + 1..]).Some?
    ensures r.Some? ==>
      var k := Find(desc, ':');
      r.value == Address(Strip(desc[..k]), ParseInt(desc[k + 1..]).value)
  {
    SplitInTwo(desc, ':');
    var parts := Split(desc, ':');
    if |parts| != 2 then None
    else
      var k := Find(desc, ':');
      assert parts[0] == desc[..k] && parts[1] == desc[k + 1..];
      match ParseInt(parts[1])
      case None => None
      case Some(port) => Some(Address(Strip(parts[0]), port))
  }

  /** Splitting gives exactly two pieces when the separator occurs exactly
      once, and they are the text on either side of it. */
  lemma SplitInTwo(s: string, sep: char)
    ensures var k := Find(s, sep);
      |Split(s, sep)| == 2 <==> k >= 0 && sep !in s[k + 1..]
    ensures var k := Find(s, sep);
      |Split(s, sep)| == 2 ==> Split(s, sep) == [s[..k], s[k + 1..]]
  {
    SplitShape(s, sep);
    var k := Find(s, sep);
    if k >= 0 {
      SplitShape(s[k + 1..], sep);
    }
  }

  /** Writing an address as "<host>:<port>" and parsing it back gives the
      address, for any host without a colon or surrounding whitespace. */
  lemma ParseAddressRoundTrip(a: Address)
    requires ':' !in a.host
    requires Strip(a.host) == a.host
    ensures ParseAddress(a.host + [':'] + DecimalString(a.port)) == Some(a)
  {
    var digits := DecimalString(a.port);
    FindFirstSeparator(a.host, ':', digits);
    assert ':' !in digits by {
      assert forall i :: 0 <= i < |digits| ==> digits[i] == '-' || IsDigit(digits[i]);
    }
    ParseDecimal(a.port);
  }

  /** The first separator after a separator-free prefix is the one that follows it. */
  lemma FindFirstSeparator(pre: string, sep: char, post: string)
    requires sep !in pre
    ensures Find(pre + [sep] + post, sep) == |pre|
    ensures (pre + [sep] + post)[..|pre|] == pre
    ensures (pre + [sep] + post)[|pre| + 1..] == post
  {
    var s := pre + [sep] + post;
    assert s[..|pre|] == pre && s[|pre|] == sep;
  }

  /** What the "m" command asks for: the peer text and the message text. */
  datatype MessageCommand = BadMessageCommand | SendTo(peerDesc: string, message: string)

  /** handleMessageCommand up to the call of sendMessage: after "m ", the
      peer runs up to the first space, must be non-empty, and must be
      followed by at least one more character; the message is the rest,
      stripped. */
  function HandleMessageCommand(cmd: string): (r: MessageCommand)
    ensures !StartsWith(cmd, "m ") ==> r == BadMessageCommand
    ensures r.SendTo? ==>
      && |r.peerDesc| + 4 <= |cmd|
      && r.peerDesc != [] && ' ' !in r.peerDesc
      && cmd == "m " + r.peerDesc + " " + cmd[|r.peerDesc| + 3..]
      && r.message == Strip(cmd[|r.peerDesc| + 3..])
  {
    if !StartsWith(cmd, "m ") then BadMessageCommand
    else
      var rest := cmd[2..];
      var splitInd := Find(rest, ' ');
      if splitInd <= 0 || splitInd + 1 >= |rest| then BadMessageCommand
      else
        assert cmd == "m " + rest[..splitInd] + " " + rest[splitInd + 1..] by {
          Around(rest, splitInd);
        }
        SendTo(rest[..splitInd], Strip(rest[splitInd + 1..]))
  }

  /** Every well-shaped command is accepted: a non-empty peer without spaces
      and a non-empty remainder give that peer and the stripped remainder.
      With the contract above, a command is accepted exactly when it has
      this shape. */
  lemma MessageCommandAccepted(peer: string, tail: string)
    requires peer != [] && ' ' !in peer
    requires tail != []
    ensures HandleMessageCommand("m " + peer + " " + tail) == SendTo(peer, Strip(tail))
  {
    var cmd := "m " + peer + " " + tail;
    assert StartsWith(cmd, "m ");
    var rest := cmd[2..];
    assert rest == peer + " " + tail;
    assert rest[..|peer|] == peer && rest[|peer|] == ' ';
    assert Find(rest, ' ') == |peer|;
    assert rest[|peer| + 1..] == tail;
  }

  /** A command whose peer part is empty, or that ends right after the peer,
      is refused. */
  lemma MessageCommandRefused(peer: string)
    requires ' ' !in peer
    ensures HandleMessageCommand("m " + peer) == BadMessageCommand
    ensures HandleMessageCommand("m " + peer + " ") == BadMessageCommand
    ensures HandleMessageCommand("m  " + peer) == BadMessageCommand
  {
    var one := "m " + peer;
    assert one[2..] == peer;
    var two := "m " + peer + " ";
    assert two[2..] == peer + " ";
    assert (peer + " ")[..|peer|] == peer;
    var three := "m  " + peer;
    assert three[2..] == " " + peer;
  }

  /** What the "a" command asks for. */
  datatype AddCommand = BadAddCommand | BadPeer(desc: string) | AddAddress(address: Address)

  /** handleAddPeerCommand up to the call of addPeer: after "a ", the
      stripped remainder is parsed as an address. */
  function HandleAddPeerCommand(cmd: string): (r: AddCommand)
    ensures r.BadAddCommand? <==> !StartsWith(cmd, "a ")
    ensures r.BadPeer? ==> ParseAddress(r.desc) == None && r.desc == Strip(cmd[2..])
    ensures r.AddAddress? ==> ParseAddress(Strip(cmd[2..])) == Some(r.address)
  {
    if !StartsWith(cmd, "a ") then BadAddCommand
    else
      var desc := Strip(cmd[2..]);
      match ParseAddress(desc)
      case None => BadPeer(desc)
      case Some(address) => AddAddress(address)
  }

  /** The "a" command adds the address it spells out. */
  lemma AddCommandRoundTrip(a: Address)
    requires ':' !in a.host
    requires Strip(a.host) == a.host
    ensures HandleAddPeerCommand("a " + a.host + [':'] + DecimalString(a.port)) == AddAddress(a)
  {
    var desc := a.host + [':'] + DecimalString(a.port);
    var cmd := "a " + desc;
    assert cmd == "a " + a.host + [':'] + DecimalString(a.port);
    assert cmd[2..] == desc && StartsWith(cmd, "a ");
    AddressTextTrimmed(a);
    ParseAddressRoundTrip(a);
  }

  /** "<host>:<port>" has no whitespace at either end when the host has none. */
  lemma AddressTextTrimmed(a: Address)
    requires Strip(a.host) == a.host
    ensures Strip(a.host + [':'] + DecimalString(a.port)) == a.host + [':'] + DecimalString(a.port)
  {
    var digits := DecimalString(a.port);
    var desc := a.host + [':'] + digits;
    assert desc[|desc| - 1] == digits[|digits| - 1];
    assert desc[0] == if a.host == [] then ':' else a.host[0];
    TrimTrimmed(desc, StripBlanks);
  }
}
