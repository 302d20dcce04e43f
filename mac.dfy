/**
 * macToString: the textual form of a hardware address, which is also the
 * key of the device registry. A six-byte address becomes "XX:XX:XX:XX:XX:XX"
 * in upper-case hexadecimal; any other length becomes "".
 */
module MacFormat {
  import opened Wire
  import opened Wrappers

  predicate IsUpperHex(c: char)
  {
    '0' <= c <= '9' || 'A' <= c <= 'F'
  }

  /** The upper-case hexadecimal digit for 0..15 (the %X verb). */
  function HexDigit(d: int): (c: char)
    requires 0 <= d < 16
    ensures IsUpperHex(c)
  {
    if d < 10 then ('0' as int + d) as char else ('A' as int + d - 10) as char
  }

  /** The value of an upper-case hexadecimal digit; 0 for any other character. */
  function HexValue(c: char): (d: int)
    ensures 0 <= d < 16
    ensures IsUpperHex(c) ==> HexDigit(d) == c
  {
    if '0' <= c <= '9' then c as int - '0' as int
    else if 'A' <= c <= 'F' then c as int - 'A' as int + 10
    else 0
  }

  /** Reading back a digit written by HexDigit gives its value. */
  lemma HexValueOfDigit(d: int)
    requires 0 <= d < 16
    ensures HexValue(HexDigit(d)) == d
  {
  }

  /** One byte as two upper-case hex digits, zero-padded (the %02X verb). */
  function HexByte(b: byte): (s: string)
    ensures |s| == 2 && IsUpperHex(s[0]) && IsUpperHex(s[1])
    ensures HexValue(s[0]) * 16 + HexValue(s[1]) == b as int
  {
    HexValueOfDigit(b as int / 16);
    HexValueOfDigit(b as int % 16);
    [HexDigit(b as int / 16), HexDigit(b as int % 16)]
  }

  /** Two hex digits at positions i, i + 1 of `s`. */
  predicate HexPairAt(s: string, i: nat)
  {
    i + 1 < |s| && IsUpperHex(s[i]) && IsUpperHex(s[i + 1])
  }

  /** Shape of a string macToString can produce: six hex pairs joined by colons. */
  predicate IsMacText(s: string)
  {
    && |s| == 17
    && HexPairAt(s, 0) && HexPairAt(s, 3) && HexPairAt(s, 6)
    && HexPairAt(s, 9) && HexPairAt(s, 12) && HexPairAt(s, 15)
    && s[2] == ':' && s[5] == ':' && s[8] == ':' && s[11] == ':' && s[14] == ':'
  }

  /**
   * macToString. Six bytes give colon-separated upper-case hex text of
   * length 17; any other length gives the empty string.
   */
  function MacToString(mac: seq<byte>): (s: string)
    ensures |mac| != 6 <==> s == ""
    ensures |mac| == 6 ==> IsMacText(s)
  {
    if |mac| != 6 then ""
    else
      HexByte(mac[0]) + ":" + HexByte(mac[1]) + ":" + HexByte(mac[2]) + ":" +
      HexByte(mac[3]) + ":" + HexByte(mac[4]) + ":" + HexByte(mac[5])
  }

  /** The byte whose hex pair starts at position i. */
  function ByteAt(s: string, i: nat): byte
    requires i + 1 < |s|
  {
    (HexValue(s[i]) * 16 + HexValue(s[i + 1])) as byte
  }

  /**
   * Reads a registry key back into a hardware address: the inverse of
   * macToString, the partner of the formatter in this model.
   */
  function ParseMacText(s: string): (r: Option<Mac>)
    ensures r.Some? <==> IsMacText(s)
  {
    if IsMacText(s) then
      Some([ByteAt(s, 0), ByteAt(s, 3), ByteAt(s, 6), ByteAt(s, 9), ByteAt(s, 12), ByteAt(s, 15)])
    else None
  }

  /** Parsing the text of a six-byte address gives the address back. */
  lemma ParseFormatted(mac: Mac)
    ensures ParseMacText(MacToString(mac)) == Some(mac)
  {
    var s := MacToString(mac);
    assert s[0..2] == HexByte(mac[0]) && s[3..5] == HexByte(mac[1]) && s[6..8] == HexByte(mac[2]);
    assert s[9..11] == HexByte(mac[3]) && s[12..14] == HexByte(mac[4]) && s[15..17] == HexByte(mac[5]);
    assert ParseMacText(s).value == mac;
  }

  lemma HexByteOfPair(s: string, i: nat)
    requires HexPairAt(s, i)
    ensures HexByte(ByteAt(s, i)) == s[i..i + 2]
  {
    var hi, lo := HexValue(s[i]), HexValue(s[i + 1]);
    assert (hi * 16 + lo) / 16 == hi && (hi * 16 + lo) % 16 == lo;
  }

  /** Every well-formed key is the text of exactly the address it parses to. */
  lemma FormatParsed(s: string)
    requires IsMacText(s)
    ensures MacToString(ParseMacText(s).value) == s
  {
    var m := ParseMacText(s).value;
    assert m[0] == ByteAt(s, 0) && m[1] == ByteAt(s, 3) && m[2] == ByteAt(s, 6);
    assert m[3] == ByteAt(s, 9) && m[4] == ByteAt(s, 12) && m[5] == ByteAt(s, 15);
    HexByteOfPair(s, 0); HexByteOfPair(s, 3); HexByteOfPair(s, 6);
    HexByteOfPair(s, 9); HexByteOfPair(s, 12); HexByteOfPair(s, 15);
    KeyOfPairs(s, m);
  }

  /** An address whose hex pairs are those of a key has that key as its text. */
  lemma KeyOfPairs(s: string, mac: Mac)
    requires IsMacText(s)
    requires HexByte(mac[0]) == s[0..2] && HexByte(mac[1]) == s[3..5] && HexByte(mac[2]) == s[6..8]
    requires HexByte(mac[3]) == s[9..11] && HexByte(mac[4]) == s[12..14] && HexByte(mac[5]) == s[15..17]
    ensures MacToString(mac) == s
  {
    MacToStringPairs(mac);
    MacTextSplit(s);
    MacTextSplit(MacToString(mac));
  }

  /** Where each byte's hex pair sits in the text of an address. */
  lemma MacToStringPairs(mac: Mac)
    ensures var k := MacToString(mac);
      && k[0..2] == HexByte(mac[0]) && k[3..5] == HexByte(mac[1]) && k[6..8] == HexByte(mac[2])
      && k[9..11] == HexByte(mac[3]) && k[12..14] == HexByte(mac[4]) && k[15..17] == HexByte(mac[5])
  {
  }

  /** A key is its six hex pairs joined by colons. */
  lemma MacTextSplit(s: string)
    requires IsMacText(s)
    ensures s == s[0..2] + ":" + s[3..5] + ":" + s[6..8] + ":" + s[9..11] + ":" + s[12..14] + ":" + s[15..17]
  {
  }

  /** Distinct six-byte addresses have distinct keys: one device per MAC. */
  lemma MacToStringInjective(a: seq<byte>, b: seq<byte>)
    requires |a| == 6 && |b| == 6
    requires MacToString(a) == MacToString(b)
    ensures a == b
  {
    ParseFormatted(a);
    ParseFormatted(b);
  }
}
