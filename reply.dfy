/**
 * Decoding one discovery reply, as the discovery loop does it for every
 * received datagram: too-short buffers and foreign hardware addresses are
 * dropped; otherwise bytes 5..10 are the MAC and bytes 11..14 the IPv4
 * address. The layout is positional: bytes 0..4 and everything after
 * byte 14 are never looked at.
 */
module Reply {
  import opened Wire
  import opened Wrappers

  /** What one accepted reply says: this hardware address has this address. */
  datatype Sighting = Sighting(mac: Mac, ip: IPv4)

  function DecodeReply(data: seq<byte>): (r: Option<Sighting>)
    ensures |data| < MinReplyLength ==> r == None
    ensures r.Some? <==> |data| >= MinReplyLength && IsBarixMac(data[5..11])
    ensures r.Some? ==> IsBarixMac(r.value.mac)
  {
    if |data| < MinReplyLength then None
    else
      var mac: Mac := data[5..11];
      if mac[0] != BarixPrefix[0] || mac[1] != BarixPrefix[1] || mac[2] != BarixPrefix[2] then None
      else
        assert mac[..3] == BarixPrefix;
        Some(Sighting(mac, data[11..15]))
  }

  /**
   * A reply as a device would send it: five bytes the decoder ignores, the
   * MAC, the IPv4 address and any trailing bytes.
   */
  function EncodeReply(head: seq<byte>, s: Sighting, tail: seq<byte>): (data: seq<byte>)
    requires |head| == 5
    ensures |data| == MinReplyLength + |tail|
  {
    head + s.mac + s.ip + tail
  }

  /** A reply carrying a Barix address decodes to exactly what it carries. */
  lemma DecodeEncoded(head: seq<byte>, s: Sighting, tail: seq<byte>)
    requires |head| == 5 && IsBarixMac(s.mac)
    ensures DecodeReply(EncodeReply(head, s, tail)) == Some(s)
  {
    var data := EncodeReply(head, s, tail);
    assert data[5..11] == s.mac;
    assert data[11..15] == s.ip;
  }

  /** Every accepted buffer is such a reply, with its own first five and trailing bytes. */
  lemma EncodeDecoded(data: seq<byte>)
    requires DecodeReply(data).Some?
    ensures var s := DecodeReply(data).value;
      IsBarixMac(s.mac) && data == EncodeReply(data[..5], s, data[15..])
  {
    var s := DecodeReply(data).value;
    assert data == data[..5] + data[5..11] + data[11..15] + data[15..];
  }

  /** Any buffer shorter than 15 bytes is rejected, whatever it holds. */
  lemma ShortRejected(data: seq<byte>)
    requires |data| < MinReplyLength
    ensures DecodeReply(data) == None
  {
  }

  /** A buffer whose bytes 5..7 are not 00 08 E1 is rejected. */
  lemma ForeignRejected(data: seq<byte>)
    requires |data| >= MinReplyLength && data[5..8] != BarixPrefix
    ensures DecodeReply(data) == None
  {
    assert data[5..11][..3] == data[5..8];
  }

  /** An accepted buffer yields MAC = bytes 5..10 and IP = bytes 11..14, in order. */
  lemma AcceptedFields(data: seq<byte>)
    requires |data| >= MinReplyLength && data[5..8] == BarixPrefix
    ensures DecodeReply(data) == Some(Sighting(data[5..11], data[11..15]))
  {
    assert data[5..11][..3] == data[5..8];
  }

  /** Only bytes 5..14 matter: bytes 0..4 and bytes past 14 do not change the result. */
  lemma DecodeDependsOnWindow(a: seq<byte>, b: seq<byte>)
    requires |a| >= MinReplyLength && |b| >= MinReplyLength
    requires a[5..15] == b[5..15]
    ensures DecodeReply(a) == DecodeReply(b)
  {
    assert a[5..11] == a[5..15][..6] == b[5..15][..6] == b[5..11];
    assert a[11..15] == a[5..15][6..] == b[5..15][6..] == b[11..15];
  }

  /** The tool's own probe, if heard back, is never taken for a device. */
  lemma ProbeRejected()
    ensures DecodeReply(DiscoveryPayload) == None
  {
  }
}
