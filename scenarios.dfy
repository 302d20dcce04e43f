/** Worked examples of the protocol and the registry on concrete bytes. */
module Scenarios {
  import opened Wire
  import opened Wrappers
  import opened Text
  import opened MacFormat
  import opened Reply
  import opened SetIP
  import opened Registry

  const DeviceX: Mac := [0x00, 0x08, 0xE1, 0xAA, 0xBB, 0xCC]

  /** A device's key is its MAC in upper-case colon-separated hex. */
  lemma KeyText()
    ensures MacToString(DeviceX) == "00:08:E1:AA:BB:CC"
  {
  }

  /** A round of one Barix reply is one merge. */
  lemma OneReply(s: Snapshot, head: seq<byte>, x: Sighting)
    requires |head| == 5 && IsBarixMac(x.mac)
    ensures AfterRound(s, [EncodeReply(head, x, [])]) == Merged(s, x.mac, x.ip)
  {
    var a := EncodeReply(head, x, []);
    DecodeEncoded(head, x, []);
    assert [a][..0] == [];
    assert AfterRound(s, [a]) == Step(AfterRound(s, []), a);
  }

  /** A round of two Barix replies is two merges, in arrival order. */
  lemma TwoReplies(s: Snapshot, head: seq<byte>, x: Sighting, y: Sighting)
    requires |head| == 5 && IsBarixMac(x.mac) && IsBarixMac(y.mac)
    ensures AfterRound(s, [EncodeReply(head, x, []), EncodeReply(head, y, [])]) ==
      Merged(Merged(s, x.mac, x.ip), y.mac, y.ip)
  {
    var a, b := EncodeReply(head, x, []), EncodeReply(head, y, []);
    OneReply(s, head, x);
    DecodeEncoded(head, y, []);
    assert [a, b][..1] == [a];
    assert AfterRound(s, [a, b]) == Step(AfterRound(s, [a]), b);
  }

  /** One Barix reply merged into an empty registry lists exactly its device. */
  lemma OneReplyListed(head: seq<byte>, x: Sighting)
    requires |head| == 5 && IsBarixMac(x.mac)
    ensures Inv(AfterRound(Empty, [EncodeReply(head, x, [])]))
    ensures Listing(AfterRound(Empty, [EncodeReply(head, x, [])])) == [Device(x.mac, x.ip)]
  {
    OneReply(Empty, head, x);
    MergeKeepsInv(Empty, x.mac, x.ip);
    var key, d := MacToString(x.mac), Device(x.mac, x.ip);
    assert Merged(Empty, x.mac, x.ip) == Snapshot(map[key := d], [key]);
    assert Listing(Snapshot(map[key := d], [key]))[0] == d;
  }

  /**
   * A reply from 00:08:E1:AA:BB:CC at 192.168.1.10, merged into an empty
   * registry, lists exactly that one device.
   */
  lemma FirstReplyListed(head: seq<byte>)
    requires |head| == 5
    ensures var data := head + [0x00, 0x08, 0xE1, 0xAA, 0xBB, 0xCC, 0xC0, 0xA8, 0x01, 0x0A];
      Inv(AfterRound(Empty, [data])) &&
      Listing(AfterRound(Empty, [data])) == [Device(DeviceX, [192, 168, 1, 10])]
  {
    var x := Sighting(DeviceX, [192, 168, 1, 10]);
    assert head + [0x00, 0x08, 0xE1, 0xAA, 0xBB, 0xCC, 0xC0, 0xA8, 0x01, 0x0A] == EncodeReply(head, x, []);
    OneReplyListed(head, x);
  }

  /** AA:BB:CC:DD:EE:FF is not a Barix address: a reply carrying it is dropped. */
  lemma NonBarixReplyDropped(head: seq<byte>)
    requires |head| == 5
    ensures DecodeReply(head + [0xAA, 0xBB, 0xCC, 0xDD, 0xEE, 0xFF, 0xC0, 0xA8, 0x01, 0x0A]) == None
  {
    var data := head + [0xAA, 0xBB, 0xCC, 0xDD, 0xEE, 0xFF, 0xC0, 0xA8, 0x01, 0x0A];
    assert data[5..8] == [0xAA, 0xBB, 0xCC];
    ForeignRejected(data);
  }

  lemma TrimmedInput()
    ensures TrimSpace(" 10.0.0.5\n") == "10.0.0.5"
  {
    assert " 10.0.0.5\n" == [' '] + "10.0.0.5" + ['\n'];
    TrimSpaceUnique([' '], "10.0.0.5", ['\n']);
  }

  /** Setting 10.0.0.5 on AA:BB:CC:DD:EE:FF builds the 15-byte frame the code sends. */
  lemma SetIPFrameExample(parseIP: string -> Parsed)
    requires parseIP("10.0.0.5") == V4([10, 0, 0, 5])
    ensures BuildSetIP([0xAA, 0xBB, 0xCC, 0xDD, 0xEE, 0xFF], " 10.0.0.5\n", parseIP) ==
      Success([0x81, 0x88, 0x53, 0x81, 0x02, 0xAA, 0xBB, 0xCC, 0xDD, 0xEE, 0xFF, 0x0A, 0x00, 0x00, 0x05])
  {
    TrimmedInput();
    var mac: Mac := [0xAA, 0xBB, 0xCC, 0xDD, 0xEE, 0xFF];
    assert EncodeSetIP(mac, [10, 0, 0, 5]) ==
      [0x81, 0x88, 0x53, 0x81, 0x02, 0xAA, 0xBB, 0xCC, 0xDD, 0xEE, 0xFF, 0x0A, 0x00, 0x00, 0x05];
  }

  /** Text that does not parse as an address is refused before any frame exists. */
  lemma SetIPRejectsText(mac: Mac, parseIP: string -> Parsed)
    requires parseIP("not-an-ip") == NoAddress
    ensures BuildSetIP(mac, "not-an-ip", parseIP) == Failure(InvalidIP)
  {
    assert "not-an-ip" == [] + "not-an-ip" + [];
    TrimSpaceUnique([], "not-an-ip", []);
  }

  lemma ListingOfTwo(t: Snapshot)
    requires Inv(t) && |t.order| == 2
    ensures Listing(t) == [t.devices[t.order[0]], t.devices[t.order[1]]]
  {
    assert Listing(t)[0] == t.devices[t.order[0]];
    assert Listing(t)[1] == t.devices[t.order[1]];
  }

  /** The registry after hearing X once and then X again and a new Y. */
  lemma SecondRoundState(x: Mac, y: Mac, ip1: IPv4, ip2: IPv4, ip3: IPv4)
    requires x != y
    ensures var t := Merged(Merged(Merged(Empty, x, ip1), x, ip2), y, ip3);
      && Inv(t)
      && t.order == [MacToString(x), MacToString(y)]
      && t.devices[MacToString(x)] == Device(x, ip2)
      && t.devices[MacToString(y)] == Device(y, ip3)
  {
    var kx, ky := MacToString(x), MacToString(y);
    if kx == ky {
      MacToStringInjective(x, y);
    }
    var s1 := Merged(Empty, x, ip1);
    assert s1 == Snapshot(map[kx := Device(x, ip1)], [kx]);
    var s2 := Merged(s1, x, ip2);
    assert s2 == Snapshot(map[kx := Device(x, ip2)], [kx]);
    var t := Merged(s2, y, ip3);
    assert t == Snapshot(map[kx := Device(x, ip2), ky := Device(y, ip3)], [kx, ky]);
    MergeKeepsInv(Empty, x, ip1);
    MergeKeepsInv(s1, x, ip2);
    MergeKeepsInv(s2, y, ip3);
  }

  /**
   * Two rounds: the first hears X, the second hears X at a new address and
   * a new device Y. The listing is X then Y, and X shows its new address.
   */
  lemma TwoRounds(x: Mac, y: Mac, ip1: IPv4, ip2: IPv4, ip3: IPv4, head: seq<byte>)
    requires IsBarixMac(x) && IsBarixMac(y) && x != y && |head| == 5
    ensures var r1 := [EncodeReply(head, Sighting(x, ip1), [])];
      var r2 := [EncodeReply(head, Sighting(x, ip2), []), EncodeReply(head, Sighting(y, ip3), [])];
      Inv(AfterRound(AfterRound(Empty, r1), r2)) &&
      Listing(AfterRound(AfterRound(Empty, r1), r2)) == [Device(x, ip2), Device(y, ip3)]
  {
    OneReply(Empty, head, Sighting(x, ip1));
    TwoReplies(Merged(Empty, x, ip1), head, Sighting(x, ip2), Sighting(y, ip3));
    SecondRoundState(x, y, ip1, ip2, ip3);
    ListingOfTwo(Merged(Merged(Merged(Empty, x, ip1), x, ip2), y, ip3));
  }
}
