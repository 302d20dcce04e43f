# Barix discovery: a Dafny model of the protocol core

`barix_discovery.go` finds Barix audio devices on the local network. It
broadcasts a 5-byte probe to UDP port 30718 and collects the replies for
two seconds. Each reply that carries a Barix hardware address (vendor
prefix `00 08 E1`) is merged into a registry of devices. The registry is
keyed by the MAC's text, and it lists devices in the order they were first
seen. A device can then be chosen by its number and given a new IPv4
address with a broadcast set-IP command frame.

This project models the protocol logic of that file:

- `wire.dfy` (module `Wire`): bytes, the six-byte `Mac`, the four-octet
  `IPv4`, and the file's constants: port 30718, the 2 s window, the 5 s
  interval, the vendor prefix, the probe and the set-IP magic.
- `text.dfy` (module `Text`): Go's `strings.TrimSpace` over
  `unicode.IsSpace`. The user's IP text passes through it before parsing.
- `mac.dfy` (module `MacFormat`): `macToString` and its inverse
  `ParseMacText`. The round trip proves that the registry key identifies
  the MAC.
- `reply.dfy` (module `Reply`): the reply decoder that `main` applies to
  every received buffer.
- `setip.dfy` (module `SetIP`): the validation and frame building of
  `sendSetIPViaDiscovery`, with a decoder for the frame as its partner.
- `registry.dfy` (module `Registry`): the registry.
  - Value-level functions specify it: `Merged`, `AfterRound`, `Select`,
    `Listing`, `AfterSetIP`.
  - The class `DeviceRegistry` holds the `devices` map and the `order`
    sequence. Its methods update them in place: `Merge`, `MergeRound` (the
    `for` loop over one round's buffers), and `SetIP` (the menu's "change
    IP" action with its optimistic overwrite).
- `scenarios.dfy` (module `Scenarios`): worked examples on concrete bytes.

Go's `net.ParseIP(..).To4()` is a parameter `parseIP: string -> Parsed`. It
returns no address, an address without an IPv4 form, or four octets. No
claim is made about which texts it accepts.

The socket's verdict on the set-IP send is a boolean parameter
`delivered`.

Three facts about the wire format and the registry:

- The set-IP magic is five bytes (`81 88 53 81 02`), so the frame is 15
  bytes: magic at 0..4, MAC at 5..10, IPv4 at 11..14.
- For replies from distinct MACs, the device map does not depend on their
  arrival order (`MergeDevicesCommute`). Two replies from the same MAC at
  different addresses do depend on it: the later address wins
  (`LastSightingWins`). The numbering always depends on arrival: the first
  newcomer gets the lower number (`MergeOrderDependsOnArrival`).
- A reply carrying a non-Barix MAC such as `AA:BB:CC:DD:EE:FF` is dropped
  (`Scenarios.NonBarixReplyDropped`). A reply from `00:08:E1:AA:BB:CC` is
  listed (`Scenarios.FirstReplyListed`).

Two further facts are proved:

- A set-IP frame for a Barix MAC has the layout of a discovery reply from
  that device at its new address (`SetIPFrameReadsAsReply`).
- The tool's own probe is never taken for a reply (`ProbeRejected`).

## Model

| member | source | states |
|---|---|---|
| Text.TrimSpace | barix_discovery.go:115 | the trimmed text is no longer than the input and has no white space at either end |
| Text.TrimSpaceCuts | barix_discovery.go:115 | the trimmed text is the input with an all-space prefix (as long as what TrimLeft cuts) and an all-space suffix removed |
| Text.TrimSpaceUnique | barix_discovery.go:115 | white space around a text with non-space ends is exactly what TrimSpace removes, so TrimSpace is fixed by its contract |
| Text.TrimSpaceIdempotent | barix_discovery.go:293 | trimming an already trimmed text changes nothing, so the re-trim inside the sender sees what the menu trimmed |
| MacFormat.HexByte | barix_discovery.go:66-67 | one byte becomes two upper-case hex digits whose values give the byte back |
| MacFormat.MacToString | barix_discovery.go:62-68 | six bytes become 17 characters: six upper-case hex pairs joined by colons; any other length, and only that, gives "" |
| MacFormat.ParseMacText | barix_discovery.go:62-68 | the inverse reader accepts exactly the texts of that colon-separated upper-case hex shape |
| MacFormat.ParseFormatted | barix_discovery.go:62-68 | reading back the text of a six-byte MAC gives that MAC |
| MacFormat.FormatParsed | barix_discovery.go:62-68 | every well-formed key is the text of the MAC it reads as |
| MacFormat.MacToStringInjective | barix_discovery.go:228-229 | two six-byte MACs with the same key are equal, so the registry holds one device per MAC |
| Reply.DecodeReply | barix_discovery.go:210-226 | a buffer is accepted if and only if it has at least 15 bytes and bytes 5..7 are 00 08 E1; shorter buffers are always rejected |
| Reply.DecodeEncoded | barix_discovery.go:215-226 | a reply built from any 5 leading bytes, a Barix MAC, an IPv4 address and any trailer decodes to that MAC and address |
| Reply.EncodeDecoded | barix_discovery.go:215-226 | every accepted buffer is such a reply: its MAC is Barix and the buffer is head, MAC, IP, trailer |
| Reply.ShortRejected | barix_discovery.go:211-213 | any buffer under 15 bytes is rejected whatever it holds |
| Reply.ForeignRejected | barix_discovery.go:215-223 | a buffer of 15 or more bytes whose bytes 5..7 are not 00 08 E1 is rejected |
| Reply.AcceptedFields | barix_discovery.go:215-226 | an accepted buffer yields MAC = bytes 5..10 and IP = bytes 11..14, in order |
| Reply.DecodeDependsOnWindow | barix_discovery.go:215-226 | buffers of 15 or more bytes that agree on bytes 5..14 decode alike: bytes 0..4 and past 14 are never read |
| Reply.ProbeRejected | barix_discovery.go:26 | the 5-byte discovery probe, if heard back, is rejected |
| SetIP.EncodeSetIP | barix_discovery.go:124-127 | the frame is 15 bytes and starts with the 5-byte set-IP magic |
| SetIP.DecodeSetIP | barix_discovery.go:124-127 | a frame is read back only if it is 15 bytes long |
| SetIP.DecodeEncodedSetIP | barix_discovery.go:124-127 | bytes 5..10 of a frame give back the MAC and bytes 11..14 the IPv4 address |
| SetIP.EncodeDecodedSetIP | barix_discovery.go:124-127 | every readable frame is exactly magic ++ MAC ++ IPv4 of what it reads as |
| SetIP.BuildSetIP | barix_discovery.go:110-127 | a MAC that is not 6 bytes, a trimmed text that does not parse, or a parse without an IPv4 form each give their own error and no frame, checked in that order; otherwise the frame reads back as the MAC and the parsed octets |
| SetIP.SetIPFrameReadsAsReply | barix_discovery.go:124-127 | a set-IP frame for a Barix MAC decodes as a discovery reply from that MAC at the new address |
| Registry.WithIP | barix_discovery.go:233 | overwriting a device's IP keeps the order, the keys, that device's MAC and every other device |
| Registry.MergeKeepsInv | barix_discovery.go:228-234 | a merge keeps the invariant: no duplicate in the order, order and map hold the same keys, each device is stored under its MAC's text |
| Registry.MergeUnseen | barix_discovery.go:229-231 | an unseen MAC is added with its IP and appended to the order; every existing device is unchanged |
| Registry.MergeSeen | barix_discovery.go:232-234 | a seen MAC changes only that device's IP; order, keys and every other device are unchanged, and the stored MAC equals the received one |
| Registry.MergeIdempotent | barix_discovery.go:229-234 | merging the same MAC and IP twice equals merging it once |
| Registry.MergeDevicesCommute | barix_discovery.go:229-234 | two different MACs give the same device map in either arrival order, and orders with the same members |
| Registry.MergeOrderDependsOnArrival | barix_discovery.go:229-231 | two newcomers are numbered in arrival order, so the order is not commutative |
| Registry.OneDevicePerMac | barix_discovery.go:198-199 | under the invariant no two positions of the order hold devices with the same MAC |
| Registry.RoundKeepsInv | barix_discovery.go:210-235 | the invariant holds after any round of buffers |
| Registry.RoundExtendsOrder | barix_discovery.go:210-235 | a round only appends: the old order is a prefix of the new one and no key disappears |
| Registry.RejectedRoundIsNoop | barix_discovery.go:210-223 | a round in which every buffer is rejected leaves the registry untouched |
| Registry.RoundKeys | barix_discovery.go:210-235 | after a round the keys are the old keys plus the keys of every accepted buffer's MAC |
| Registry.RoundKeepsUnsighted | barix_discovery.go:210-235 | a registered device that no accepted reply of the round carries keeps its entry unchanged, so the registry remembers its last known address |
| Registry.LastSightingWins | barix_discovery.go:210-235 | after a round the device of a MAC holds that MAC and the IP of the last accepted reply carrying it |
| Registry.Select | barix_discovery.go:256-258 | a device is selected if and only if 1 <= num <= the number of devices, and it is the device filed under order[num-1] |
| Registry.Listing | barix_discovery.go:240-246 | the listing has one line per known device, and line idx shows the device that number idx+1 selects |
| Registry.SelectionStable | barix_discovery.go:256-257 | a number that selected a device before a round selects the device with the same MAC after it |
| Registry.AfterSetIP | barix_discovery.go:286-301 | only a send the socket accepted changes the registry; then only the selected device's IP is overwritten, with the parsed octets of the trimmed text, and the frame reads back as that device's MAC and that address |
| Registry.WithIPKeepsInv | barix_discovery.go:298-301 | the optimistic IP overwrite keeps the registry invariant |
| Registry.SetIPSelectionCases | barix_discovery.go:254-257 | the action selects nothing if and only if the number is out of range, and it does nothing if and only if the trimmed text is empty |
| Registry.SetIPSendCases | barix_discovery.go:292-301 | the MAC-length error cannot arise from the menu; a socket failure is reported only for valid IPv4 text, and every valid IPv4 text that the socket accepts is sent |
| Registry.DeviceRegistry.constructor | barix_discovery.go:198-199 | a new registry is empty and satisfies the invariant |
| Registry.DeviceRegistry.Merge | barix_discovery.go:228-234 | the in-place merge keeps the invariant and yields the state Merged specifies |
| Registry.DeviceRegistry.MergeRound | barix_discovery.go:210-235 | the loop over a round's buffers keeps the invariant and yields the state AfterRound specifies |
| Registry.DeviceRegistry.SetIP | barix_discovery.go:286-301 | the in-place change-IP action keeps the invariant and yields the state and outcome AfterSetIP specifies |
| Scenarios.KeyText | barix_discovery.go:62-68 | 00 08 E1 AA BB CC is keyed "00:08:E1:AA:BB:CC" |
| Scenarios.FirstReplyListed | barix_discovery.go:210-234 | a reply from 00:08:E1:AA:BB:CC at 192.168.1.10 merged into an empty registry lists exactly that device |
| Scenarios.NonBarixReplyDropped | barix_discovery.go:218-223 | a reply carrying AA:BB:CC:DD:EE:FF is dropped |
| Scenarios.SetIPFrameExample | barix_discovery.go:110-127 | " 10.0.0.5\n" for AA:BB:CC:DD:EE:FF gives 81 88 53 81 02 AA BB CC DD EE FF 0A 00 00 05 |
| Scenarios.SetIPRejectsText | barix_discovery.go:115-118 | text that does not parse gives the invalid-IP error and no frame |
| Scenarios.TwoRounds | barix_discovery.go:210-235 | rounds {X} then {X at a new IP, Y} list X then Y, and X shows its new IP |

## Left out

- Socket I/O is not modelled. This covers `sendDiscovery` (lines 70-79) and
  the receive loop and read deadline of `discoverOnce` (81-108). It also
  covers the bind to port 30719, the fallback to an ephemeral port and
  `WriteToUDP` in `sendSetIPViaDiscovery` (129-143). A round's received
  buffers are the input of `MergeRound`, and the outcome of the send is the
  `delivered` parameter.
- Timing is not modelled. The 2 s window and the 5 s pause (lines 20-21,
  91, 328) are constants only; wall-clock behaviour has no logical
  content here.
- Terminal presentation is not modelled: `clearScreen`, `colorize`,
  `hexToRGB` (42-60), the prompts, and the menu's other actions (SSH,
  browser, cancel). Only the numbering the listing shows is modelled
  (`Listing`).
- External processes are not modelled: `openBrowser` (146-159) and
  `runSSH` (161-194) launch foreign programs.
- `strconv.Atoi` on the selection text is not modelled. `Select` and
  `SetIP` take the number already parsed; a parse failure behaves like an
  out-of-range number.
- The internals of `net.ParseIP` and `To4` are a parameter. The real
  parser also accepts IPv4-mapped IPv6 text, and nothing here depends on
  which texts it accepts.
- Go's `net.IP` representation is not kept. Line 226 stores a 16-byte
  form and line 300 a 4-byte form. The model keeps the four octets, which
  name the same address. It proves that the optimistic overwrite always
  has four octets to store, so the nil that lines 298-301 could
  store in principle never occurs.
- The `*Device` pointer is not modelled as a heap object. The map is the
  only holder of each pointer, so the device is a value in the map and an
  overwrite through the pointer is a map update.
- Invalid UTF-8 in the typed text is not modelled. Strings here are
  sequences of code points.
- The endless outer loop of `main` (203-329) is not modelled as a loop.
  One round (`MergeRound`) and one change-IP action (`SetIP`) are
  modelled; successive iterations are their composition.
- No concurrency or locking is modelled. The program is single-threaded.
