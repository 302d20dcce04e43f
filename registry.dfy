/**
 * The device registry that the discovery loop keeps: a map from MAC text
 * to device, plus the keys in first-seen order, which gives the stable
 * 1-based numbering the user selects by. The value-level functions
 * (Merged, AfterRound, Select, AfterSetIP) are the specification; the
 * class DeviceRegistry updates its fields in place as the loop does and
 * is proved to follow them.
 */
module Registry {
  import opened Wire
  import opened Wrappers
  import opened Text
  import opened MacFormat
  import opened Reply
  import opened SetIP

  datatype Device = Device(mac: Mac, ip: IPv4)

  /** The registry's contents at one moment. */
  datatype Snapshot = Snapshot(devices: map<string, Device>, order: seq<string>)

  predicate NoDuplicates(xs: seq<string>)
  {
    forall i, j :: 0 <= i < j < |xs| ==> xs[i] != xs[j]
  }

  /**
   * The registry invariant: each key appears once in the order, the order
   * lists exactly the map's keys, and each device sits under the text of
   * its own MAC.
   */
  ghost predicate Inv(s: Snapshot)
  {
    && NoDuplicates(s.order)
    && (forall k :: k in s.devices <==> k in s.order)
    && (forall k :: k in s.devices ==> MacToString(s.devices[k].mac) == k)
  }

  const Empty: Snapshot := Snapshot(map[], [])

  /** The device under `key` with its address overwritten; nothing else changes. */
  function WithIP(s: Snapshot, key: string, ip: IPv4): (t: Snapshot)
    requires key in s.devices
    ensures t.order == s.order && t.devices.Keys == s.devices.Keys
    ensures t.devices[key].mac == s.devices[key].mac && t.devices[key].ip == ip
    ensures forall k :: k in s.devices && k != key ==> t.devices[k] == s.devices[k]
  {
    Snapshot(s.devices[key := s.devices[key].(ip := ip)], s.order)
  }

  /** One reply merged in: an unseen MAC is added and appended, a seen one gets the new IP. */
  function Merged(s: Snapshot, mac: Mac, ip: IPv4): Snapshot
  {
    var key := MacToString(mac);
    if key !in s.devices then Snapshot(s.devices[key := Device(mac, ip)], s.order + [key])
    else WithIP(s, key, ip)
  }

  lemma MergeKeepsInv(s: Snapshot, mac: Mac, ip: IPv4)
    requires Inv(s)
    ensures Inv(Merged(s, mac, ip))
  {
    var key := MacToString(mac);
    if key !in s.devices {
      var t := Merged(s, mac, ip);
      forall i, j | 0 <= i < j < |t.order| ensures t.order[i] != t.order[j] {
        if j == |s.order| {
          assert t.order[i] == s.order[i] && s.order[i] in s.devices;
        }
      }
    }
  }

  /** An unseen MAC: its device is added at the end of the order, every other device unchanged. */
  lemma MergeUnseen(s: Snapshot, mac: Mac, ip: IPv4)
    requires Inv(s) && MacToString(mac) !in s.devices
    ensures var t := Merged(s, mac, ip);
      && t.order == s.order + [MacToString(mac)]
      && t.devices.Keys == s.devices.Keys + {MacToString(mac)}
      && t.devices[MacToString(mac)] == Device(mac, ip)
      && forall k :: k in s.devices ==> t.devices[k] == s.devices[k]
  {
  }

  /**
   * A seen MAC: only that device's IP changes. Its stored MAC is the one
   * just received, since the key determines the MAC.
   */
  lemma MergeSeen(s: Snapshot, mac: Mac, ip: IPv4)
    requires Inv(s) && MacToString(mac) in s.devices
    ensures var t := Merged(s, mac, ip);
      && t.order == s.order
      && t.devices.Keys == s.devices.Keys
      && t.devices[MacToString(mac)] == Device(mac, ip)
      && forall k :: k in s.devices && k != MacToString(mac) ==> t.devices[k] == s.devices[k]
  {
    var key := MacToString(mac);
    MacToStringInjective(s.devices[key].mac, mac);
  }

  /** Merging the same (MAC, IP) twice equals merging it once. */
  lemma MergeIdempotent(s: Snapshot, mac: Mac, ip: IPv4)
    ensures Merged(Merged(s, mac, ip), mac, ip) == Merged(s, mac, ip)
  {
  }

  /** The two shapes of a merge, as one equation. */
  lemma MergedShape(s: Snapshot, mac: Mac, ip: IPv4)
    ensures var k := MacToString(mac);
      var d := if k in s.devices then s.devices[k].(ip := ip) else Device(mac, ip);
      Merged(s, mac, ip) == Snapshot(s.devices[k := d], s.order + if k in s.devices then [] else [k])
  {
  }

  /** The updates two different MACs make, in either order, starting from s. */
  lemma TwoMerges(s: Snapshot, m1: Mac, ip1: IPv4, m2: Mac, ip2: IPv4)
    requires m1 != m2
    ensures var k1, k2 := MacToString(m1), MacToString(m2);
      var d1 := if k1 in s.devices then s.devices[k1].(ip := ip1) else Device(m1, ip1);
      var d2 := if k2 in s.devices then s.devices[k2].(ip := ip2) else Device(m2, ip2);
      var n1: seq<string> := if k1 in s.devices then [] else [k1];
      var n2: seq<string> := if k2 in s.devices then [] else [k2];
      && k1 != k2
      && Merged(Merged(s, m1, ip1), m2, ip2) == Snapshot(s.devices[k1 := d1][k2 := d2], s.order + n1 + n2)
      && Merged(Merged(s, m2, ip2), m1, ip1) == Snapshot(s.devices[k2 := d2][k1 := d1], s.order + n2 + n1)
  {
    var k1, k2 := MacToString(m1), MacToString(m2);
    if k1 == k2 {
      MacToStringInjective(m1, m2);
    }
    MergedShape(s, m1, ip1);
    MergedShape(s, m2, ip2);
    MergedShape(Merged(s, m1, ip1), m2, ip2);
    MergedShape(Merged(s, m2, ip2), m1, ip1);
  }

  /** Replies for two different MACs give the same devices in either order of arrival. */
  lemma MergeDevicesCommute(s: Snapshot, m1: Mac, ip1: IPv4, m2: Mac, ip2: IPv4)
    requires m1 != m2
    ensures Merged(Merged(s, m1, ip1), m2, ip2).devices == Merged(Merged(s, m2, ip2), m1, ip1).devices
    ensures multiset(Merged(Merged(s, m1, ip1), m2, ip2).order) == multiset(Merged(Merged(s, m2, ip2), m1, ip1).order)
  {
    TwoMerges(s, m1, ip1, m2, ip2);
    var k1, k2 := MacToString(m1), MacToString(m2);
    var d1 := if k1 in s.devices then s.devices[k1].(ip := ip1) else Device(m1, ip1);
    var d2 := if k2 in s.devices then s.devices[k2].(ip := ip2) else Device(m2, ip2);
    var n1: seq<string> := if k1 in s.devices then [] else [k1];
    var n2: seq<string> := if k2 in s.devices then [] else [k2];
    UpdatesCommute(s.devices, k1, d1, k2, d2);
    assert multiset(s.order + n1 + n2) == multiset(s.order) + multiset(n1) + multiset(n2);
  }

  lemma UpdatesCommute<K, V>(m: map<K, V>, k1: K, v1: V, k2: K, v2: V)
    requires k1 != k2
    ensures m[k1 := v1][k2 := v2] == m[k2 := v2][k1 := v1]
  {
  }

  /** Unlike the devices, the order does depend on arrival: the first newcomer is numbered first. */
  lemma MergeOrderDependsOnArrival(m1: Mac, ip1: IPv4, m2: Mac, ip2: IPv4)
    requires m1 != m2
    ensures Merged(Merged(Empty, m1, ip1), m2, ip2).order != Merged(Merged(Empty, m2, ip2), m1, ip1).order
  {
    var k1, k2 := MacToString(m1), MacToString(m2);
    if k1 == k2 {
      MacToStringInjective(m1, m2);
    }
    assert Merged(Merged(Empty, m1, ip1), m2, ip2).order == [k1, k2];
    assert Merged(Merged(Empty, m2, ip2), m1, ip1).order == [k2, k1];
  }

  /** Two positions of the order never hold devices with the same MAC. */
  lemma OneDevicePerMac(s: Snapshot, i: int, j: int)
    requires Inv(s) && 0 <= i < j < |s.order|
    ensures s.devices[s.order[i]].mac != s.devices[s.order[j]].mac
  {
  }

  /** One received buffer: rejected buffers leave the registry as it is. */
  function Step(s: Snapshot, data: seq<byte>): Snapshot
  {
    match DecodeReply(data)
    case None => s
    case Some(x) => Merged(s, x.mac, x.ip)
  }

  /** A whole round of replies, processed in arrival order. */
  function AfterRound(s: Snapshot, replies: seq<seq<byte>>): Snapshot
    decreases |replies|
  {
    if replies == [] then s
    else Step(AfterRound(s, replies[..|replies| - 1]), replies[|replies| - 1])
  }

  lemma {:induction false} RoundKeepsInv(s: Snapshot, replies: seq<seq<byte>>)
    requires Inv(s)
    ensures Inv(AfterRound(s, replies))
    decreases |replies|
  {
    if replies != [] {
      var before := AfterRound(s, replies[..|replies| - 1]);
      RoundKeepsInv(s, replies[..|replies| - 1]);
      match DecodeReply(replies[|replies| - 1])
      case None =>
      case Some(x) => MergeKeepsInv(before, x.mac, x.ip);
    }
  }

  /** A round only appends: the old order is a prefix of the new one and no device disappears. */
  lemma {:induction false} RoundExtendsOrder(s: Snapshot, replies: seq<seq<byte>>)
    ensures |s.order| <= |AfterRound(s, replies).order|
    ensures AfterRound(s, replies).order[..|s.order|] == s.order
    ensures s.devices.Keys <= AfterRound(s, replies).devices.Keys
    decreases |replies|
  {
    if replies != [] {
      var before := AfterRound(s, replies[..|replies| - 1]);
      RoundExtendsOrder(s, replies[..|replies| - 1]);
      var after := AfterRound(s, replies);
      assert after.order[..|before.order|] == before.order;
      assert after.order[..|s.order|] == after.order[..|before.order|][..|s.order|];
    }
  }

  /** A round in which every buffer is rejected leaves the registry untouched. */
  lemma {:induction false} RejectedRoundIsNoop(s: Snapshot, replies: seq<seq<byte>>)
    requires forall i :: 0 <= i < |replies| ==> DecodeReply(replies[i]) == None
    ensures AfterRound(s, replies) == s
    decreases |replies|
  {
    if replies != [] {
      RejectedRoundIsNoop(s, replies[..|replies| - 1]);
    }
  }

  /** The key a buffer contributes to a round: its MAC's text if accepted, none otherwise. */
  ghost function SightedKey(data: seq<byte>): set<string>
  {
    match DecodeReply(data)
    case None => {}
    case Some(x) => {MacToString(x.mac)}
  }

  /** The keys of the MACs a round's accepted replies carry. */
  ghost function AcceptedKeys(replies: seq<seq<byte>>): set<string>
    decreases |replies|
  {
    if replies == [] then {}
    else AcceptedKeys(replies[..|replies| - 1]) + SightedKey(replies[|replies| - 1])
  }

  /** After a round the registry knows exactly the old devices and every accepted reply's MAC. */
  lemma {:induction false} RoundKeys(s: Snapshot, replies: seq<seq<byte>>)
    ensures AfterRound(s, replies).devices.Keys == s.devices.Keys + AcceptedKeys(replies)
    decreases |replies|
  {
    if replies != [] {
      var n := |replies| - 1;
      RoundKeys(s, replies[..n]);
      StepKeys(AfterRound(s, replies[..n]), replies[n]);
    }
  }

  lemma StepKeys(s: Snapshot, data: seq<byte>)
    ensures Step(s, data).devices.Keys == s.devices.Keys + SightedKey(data)
  {
  }

  /**
   * A registered device that no accepted reply of the round carries keeps
   * its entry as it was: the registry remembers the last known address.
   */
  lemma {:induction false} RoundKeepsUnsighted(s: Snapshot, replies: seq<seq<byte>>, k: string)
    requires k in s.devices && k !in AcceptedKeys(replies)
    ensures k in AfterRound(s, replies).devices && AfterRound(s, replies).devices[k] == s.devices[k]
    decreases |replies|
  {
    if replies != [] {
      var n := |replies| - 1;
      RoundKeepsUnsighted(s, replies[..n], k);
    }
  }

  /**
   * The device of a MAC carries the IP of the last reply for that MAC in
   * the round.
   */
  lemma {:induction false} LastSightingWins(s: Snapshot, replies: seq<seq<byte>>, i: int)
    requires Inv(s) && 0 <= i < |replies| && DecodeReply(replies[i]).Some?
    requires forall j :: i < j < |replies| && DecodeReply(replies[j]).Some? ==>
      DecodeReply(replies[j]).value.mac != DecodeReply(replies[i]).value.mac
    ensures var x, t := DecodeReply(replies[i]).value, AfterRound(s, replies);
      MacToString(x.mac) in t.devices && t.devices[MacToString(x.mac)] == Device(x.mac, x.ip)
    decreases |replies|
  {
    var x := DecodeReply(replies[i]).value;
    var n := |replies| - 1;
    var init := replies[..n];
    RoundKeepsInv(s, init);
    assert AfterRound(s, replies) == Step(AfterRound(s, init), replies[n]);
    if i == n {
      MergedHolds(AfterRound(s, init), x.mac, x.ip);
    } else {
      LastSightingWins(s, init, i);
      match DecodeReply(replies[n])
      case None =>
      case Some(y) =>
        if MacToString(y.mac) == MacToString(x.mac) {
          MacToStringInjective(y.mac, x.mac);
        }
        MergedKeepsOther(AfterRound(s, init), y.mac, y.ip, MacToString(x.mac));
    }
  }

  /** After a merge the MAC's key holds exactly the merged device. */
  lemma MergedHolds(s: Snapshot, mac: Mac, ip: IPv4)
    requires Inv(s)
    ensures MacToString(mac) in Merged(s, mac, ip).devices
    ensures Merged(s, mac, ip).devices[MacToString(mac)] == Device(mac, ip)
  {
    var key := MacToString(mac);
    if key in s.devices {
      MacToStringInjective(s.devices[key].mac, mac);
    }
  }

  /** A merge leaves every other key's device as it was. */
  lemma MergedKeepsOther(s: Snapshot, mac: Mac, ip: IPv4, k: string)
    requires k in s.devices && k != MacToString(mac)
    ensures k in Merged(s, mac, ip).devices && Merged(s, mac, ip).devices[k] == s.devices[k]
  {
  }

  /** Bounds-checked 1-based selection: entry num - 1 of the order. */
  function Select(s: Snapshot, num: int): (r: Option<Device>)
    requires Inv(s)
    ensures r.Some? <==> 1 <= num <= |s.order|
    ensures r.Some? ==> s.order[num - 1] in s.devices && r.value == s.devices[s.order[num - 1]]
    ensures r.Some? ==> MacToString(r.value.mac) == s.order[num - 1]
  {
    if 1 <= num <= |s.order| then Some(s.devices[s.order[num - 1]]) else None
  }

  /** The numbered listing: line idx shows the device that number idx + 1 selects. */
  function Listing(s: Snapshot): (lines: seq<Device>)
    requires Inv(s)
    ensures |lines| == |s.order|
    ensures forall idx :: 0 <= idx < |lines| ==> Select(s, idx + 1) == Some(lines[idx])
  {
    seq(|s.order|, idx requires 0 <= idx < |s.order| => s.devices[s.order[idx]])
  }

  /**
   * A number that selected a device before a round selects the same device
   * (same MAC) after it: new devices only ever go to the end.
   */
  lemma SelectionStable(s: Snapshot, replies: seq<seq<byte>>, num: int)
    requires Inv(s) && 1 <= num <= |s.order|
    ensures Inv(AfterRound(s, replies))
    ensures Select(AfterRound(s, replies), num).Some?
    ensures Select(AfterRound(s, replies), num).value.mac == Select(s, num).value.mac
  {
    var t := AfterRound(s, replies);
    RoundKeepsInv(s, replies);
    RoundExtendsOrder(s, replies);
    assert t.order[num - 1] == t.order[..|s.order|][num - 1];
    var a, b := Select(t, num).value.mac, Select(s, num).value.mac;
    MacToStringInjective(a, b);
  }

  /** What the "change IP address" menu action did. */
  datatype ChangeOutcome =
    | NoSuchDevice                         // the number selects no device
    | Blank                                // the new IP text was empty after trimming
    | Refused(error: SetIPError)           // validation failed: nothing was sent
    | SendFailed                           // the socket could not be bound or written
    | Sent(frame: seq<byte>, ip: IPv4)     // the frame was handed to the network

  /**
   * Selecting device `num`, typing `line` as its new IP and sending the
   * set-IP frame; `delivered` is the socket's verdict. After a successful
   * send the device's IP is overwritten at once with the new address,
   * before any reply confirms it.
   */
  function AfterSetIP(s: Snapshot, num: int, line: string, parseIP: string -> Parsed, delivered: bool): (r: (Snapshot, ChangeOutcome))
    requires Inv(s)
    ensures Inv(r.0) && r.0.order == s.order
    ensures !r.1.Sent? ==> r.0 == s
    ensures r.1.Sent? ==>
      && delivered
      && 1 <= num <= |s.order|
      && parseIP(TrimSpace(line)) == V4(r.1.ip)
      && DecodeSetIP(r.1.frame) == Some((s.devices[s.order[num - 1]].mac, r.1.ip))
      && r.0 == WithIP(s, s.order[num - 1], r.1.ip)
  {
    match Select(s, num)
    case None => (s, NoSuchDevice)
    case Some(d) =>
      var newIP := TrimSpace(line);
      if newIP == "" then (s, Blank)
      else
        match BuildSetIP(d.mac, newIP, parseIP)
        case Failure(e) => (s, Refused(e))
        case Success(frame) =>
          if !delivered then (s, SendFailed)
          else
            TrimSpaceIdempotent(line);
            var ip := parseIP(newIP).octets;
            WithIPKeepsInv(s, s.order[num - 1], ip);
            (WithIP(s, s.order[num - 1], ip), Sent(frame, ip))
  }

  lemma WithIPKeepsInv(s: Snapshot, key: string, ip: IPv4)
    requires Inv(s) && key in s.devices
    ensures Inv(WithIP(s, key, ip))
  {
  }

  /** A number out of range selects nothing; an empty text after trimming does nothing. */
  lemma SetIPSelectionCases(s: Snapshot, num: int, line: string, parseIP: string -> Parsed, delivered: bool)
    requires Inv(s)
    ensures var r := AfterSetIP(s, num, line, parseIP, delivered);
      && (r.1 == NoSuchDevice <==> !(1 <= num <= |s.order|))
      && (r.1 == Blank <==> 1 <= num <= |s.order| && TrimSpace(line) == "")
  {
    var r := AfterSetIP(s, num, line, parseIP, delivered);
    if 1 <= num <= |s.order| && TrimSpace(line) != "" {
      var built := BuildSetIP(Select(s, num).value.mac, TrimSpace(line), parseIP);
      assert r.1 == if built.Failure? then Refused(built.error) else if delivered then r.1 else SendFailed;
    }
  }

  /**
   * The MAC-length error cannot arise from the menu, since every
   * registered MAC has six bytes; a valid IPv4 text with a failing socket
   * is the one way to get SendFailed.
   */
  lemma SetIPSendCases(s: Snapshot, num: int, line: string, parseIP: string -> Parsed, delivered: bool)
    requires Inv(s) && 1 <= num <= |s.order| && TrimSpace(line) != ""
    ensures var r := AfterSetIP(s, num, line, parseIP, delivered);
      && r.1 != Refused(MacNotSixBytes)
      && (r.1 == SendFailed <==> parseIP(TrimSpace(line)).V4? && !delivered)
      && (r.1.Sent? <==> parseIP(TrimSpace(line)).V4? && delivered)
  {
    TrimSpaceIdempotent(line);
    var r := AfterSetIP(s, num, line, parseIP, delivered);
    match parseIP(TrimSpace(line))
    case NoAddress => assert r.1 == Refused(InvalidIP);
    case NotIPv4 => assert r.1 == Refused(IPNotIPv4);
    case V4(_) =>
      if delivered {
        assert r.1.Sent?;
      } else {
        assert r.1 == SendFailed;
      }
  }

  /** The sent case of AfterSetIP: the selected device gets the parsed octets. */
  lemma AfterSetIPSent(s: Snapshot, num: int, line: string, parseIP: string -> Parsed)
    requires Inv(s) && 1 <= num <= |s.order| && TrimSpace(line) != ""
    requires BuildSetIP(s.devices[s.order[num - 1]].mac, TrimSpace(line), parseIP).Success?
    ensures parseIP(TrimSpace(line)).V4?
    ensures var ip := parseIP(TrimSpace(line)).octets;
      var frame := BuildSetIP(s.devices[s.order[num - 1]].mac, TrimSpace(line), parseIP).value;
      AfterSetIP(s, num, line, parseIP, true) == (WithIP(s, s.order[num - 1], ip), Sent(frame, ip))
  {
    TrimSpaceIdempotent(line);
  }

  class DeviceRegistry {
    var devices: map<string, Device>
    var order: seq<string>

    function State(): Snapshot
      reads this
    {
      Snapshot(devices, order)
    }

    ghost predicate Valid()
      reads this
    {
      Inv(State())
    }

    constructor ()
      ensures Valid() && State() == Empty
    {
      devices := map[];
      order := [];
    }

    /** The merge step of the discovery loop for one accepted reply. */
    method Merge(mac: Mac, ip: IPv4)
      requires Valid()
      modifies this
      ensures Valid()
      ensures State() == Merged(old(State()), mac, ip)
    {
      MergeKeepsInv(State(), mac, ip);
      var key := MacToString(mac);
      if key !in devices {
        devices := devices[key := Device(mac, ip)];
        order := order + [key];
      } else {
        devices := devices[key := devices[key].(ip := ip)];
      }
    }

    /** The discovery loop's pass over one round of received buffers. */
    method MergeRound(replies: seq<seq<byte>>)
      requires Valid()
      modifies this
      ensures Valid()
      ensures State() == AfterRound(old(State()), replies)
    {
      for i := 0 to |replies|
        invariant Valid()
        invariant State() == AfterRound(old(State()), replies[..i])
      {
        assert replies[..i + 1][..i] == replies[..i];
        var data := replies[i];
        match DecodeReply(data)
        case None =>
        case Some(x) => Merge(x.mac, x.ip);
      }
      assert replies[..|replies|] == replies;
    }

    /** The "change IP address" action on device `num`, with its optimistic update. */
    method SetIP(num: int, line: string, parseIP: string -> Parsed, delivered: bool) returns (outcome: ChangeOutcome)
      requires Valid()
      modifies this
      ensures Valid()
      ensures (State(), outcome) == AfterSetIP(old(State()), num, line, parseIP, delivered)
    {
      ghost var s := State();
      if !(1 <= num <= |order|) {
        return NoSuchDevice;
      }
      var key := order[num - 1];
      var d := devices[key];
      var newIP := TrimSpace(line);
      if newIP == "" {
        return Blank;
      }
      var built := BuildSetIP(d.mac, newIP, parseIP);
      if built.Failure? {
        return Refused(built.error);
      }
      if !delivered {
        return SendFailed;
      }
      AfterSetIPSent(s, num, line, parseIP);
      var ip := parseIP(newIP).octets;
      devices := devices[key := devices[key].(ip := ip)];
      outcome := Sent(built.value, ip);
      assert State() == WithIP(s, key, ip);
    }
  }
}
