/**
 * Wire-level vocabulary of the Barix discovery protocol: bytes, hardware
 * addresses, IPv4 addresses and the protocol's fixed constants.
 */
module Wire {

  newtype byte = x: int | 0 <= x < 256

  /** A hardware (MAC) address: exactly six bytes. */
  type Mac = m: seq<byte> | |m| == 6 witness [0, 0, 0, 0, 0, 0]

  /** An IPv4 address as its four octets in network (big-endian) order. */
  type IPv4 = a: seq<byte> | |a| == 4 witness [0, 0, 0, 0]

  /** UDP port every probe, reply and command uses. */
  const UdpPort: nat := 30718

  /** Local port the set-IP sender tries to bind first. */
  const SetIPLocalPort: nat := UdpPort + 1

  /** Length of one reply-collection window, in seconds. */
  const TimeoutSeconds: nat := 2

  /** Pause between two discovery rounds, in seconds. */
  const IntervalSeconds: nat := 5

  /** The first three bytes of every Barix hardware address. */
  const BarixPrefix: seq<byte> := [0x00, 0x08, 0xE1]

  /** The broadcast discovery probe. */
  const DiscoveryPayload: seq<byte> := [0x81, 0x88, 0x53, 0x81, 0x01]

  /** The magic that starts a set-IP command frame. */
  const SetIPPrefix: seq<byte> := [0x81, 0x88, 0x53, 0x81, 0x02]

  /** Smallest reply that is looked at: 5 ignored bytes, 6 MAC bytes, 4 IP bytes. */
  const MinReplyLength: nat := 15

  /** A hardware address belongs to the Barix family. */
  predicate IsBarixMac(mac: seq<byte>)
  {
    |mac| >= 3 && mac[..3] == BarixPrefix
  }
}
