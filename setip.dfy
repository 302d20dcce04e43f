/**
 * sendSetIPViaDiscovery, up to the point where the frame is handed to the
 * socket: the hardware address must be six bytes, the trimmed IP text must
 * parse, and the parsed address must have an IPv4 form; then the frame is
 * the 5-byte set-IP magic, the MAC and the four IPv4 octets.
 */
module SetIP {
  import opened Wire
  import opened Wrappers
  import opened Text
  import Reply

  /**
   * What net.ParseIP followed by To4 makes of a text: no address at all,
   * an address without an IPv4 form, or four octets. The parser itself is
   * Go's and is a parameter of this model.
   */
  datatype Parsed = NoAddress | NotIPv4 | V4(octets: IPv4)

  /** The three errors sendSetIPViaDiscovery reports before any network action. */
  datatype SetIPError = MacNotSixBytes | InvalidIP | IPNotIPv4

  /** The set-IP command frame: 15 bytes, magic then MAC then IPv4. */
  function EncodeSetIP(mac: Mac, ip: IPv4): (frame: seq<byte>)
    ensures |frame| == |SetIPPrefix| + 6 + 4 == 15
    ensures frame[..5] == SetIPPrefix
  {
    SetIPPrefix + mac + ip
  }

  /** Reads a set-IP frame: the partner of EncodeSetIP. */
  function DecodeSetIP(frame: seq<byte>): (r: Option<(Mac, IPv4)>)
    ensures r.Some? ==> |frame| == 15
  {
    if |frame| == 15 && frame[..5] == SetIPPrefix then Some((frame[5..11], frame[11..15]))
    else None
  }

  /** Bytes 5..10 of a frame give back the MAC and bytes 11..14 the IP. */
  lemma DecodeEncodedSetIP(mac: Mac, ip: IPv4)
    ensures DecodeSetIP(EncodeSetIP(mac, ip)) == Some((mac, ip))
  {
    var f := EncodeSetIP(mac, ip);
    assert f[5..11] == mac && f[11..15] == ip;
  }

  /** Every frame the decoder accepts is the encoding of what it decodes to. */
  lemma EncodeDecodedSetIP(frame: seq<byte>)
    requires DecodeSetIP(frame).Some?
    ensures EncodeSetIP(DecodeSetIP(frame).value.0, DecodeSetIP(frame).value.1) == frame
  {
    assert frame == frame[..5] + frame[5..11] + frame[11..15];
  }

  /**
   * The validation and frame building of sendSetIPViaDiscovery. The checks
   * run in the source's order: MAC length, then parse, then IPv4 form.
   */
  function BuildSetIP(mac: seq<byte>, newIP: string, parseIP: string -> Parsed): (r: Result<seq<byte>, SetIPError>)
    ensures |mac| != 6 ==> r == Failure(MacNotSixBytes)
    ensures |mac| == 6 && parseIP(TrimSpace(newIP)).NoAddress? ==> r == Failure(InvalidIP)
    ensures |mac| == 6 && parseIP(TrimSpace(newIP)).NotIPv4? ==> r == Failure(IPNotIPv4)
    ensures r.Success? <==> |mac| == 6 && parseIP(TrimSpace(newIP)).V4?
    ensures r.Success? ==> DecodeSetIP(r.value) == Some((mac, parseIP(TrimSpace(newIP)).octets))
  {
    if |mac| != 6 then Failure(MacNotSixBytes)
    else
      match parseIP(TrimSpace(newIP))
      case NoAddress => Failure(InvalidIP)
      case NotIPv4 => Failure(IPNotIPv4)
      case V4(ip) =>
        DecodeEncodedSetIP(mac, ip);
        Success(EncodeSetIP(mac, ip))
  }

  /**
   * A set-IP frame addressed to a Barix device has the layout of a
   * discovery reply from that device at the new address: a listener on the
   * discovery port that hears it registers the device at the new address.
   */
  lemma SetIPFrameReadsAsReply(mac: Mac, ip: IPv4)
    requires IsBarixMac(mac)
    ensures Reply.DecodeReply(EncodeSetIP(mac, ip)) == Some(Reply.Sighting(mac, ip))
  {
    assert EncodeSetIP(mac, ip) == Reply.EncodeReply(SetIPPrefix, Reply.Sighting(mac, ip), []);
    Reply.DecodeEncoded(SetIPPrefix, Reply.Sighting(mac, ip), []);
  }
}
