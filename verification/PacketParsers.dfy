// The two packet parsers that must agree: the eBPF one of net-guardia-abi/src/ebpf/parsing.rs,
// filling a target in place, and the user-space one of
// net-guardia/src/common/utils/packet_parser.rs. A frame is the bytes from `data` to `data_end`.

module PacketParsers {
  import opened Basics
  import DnsFilter

  type Frame = seq<Byte>

  const ETH_LEN := 14
  const IPV4_MIN_LEN := 20
  const IPV6_LEN := 40
  const TCP_MIN_LEN := 20
  const UDP_LEN := 8
  const TCP: Byte := 6
  const UDP: Byte := 17

  function U16At(raw: Frame, i: nat): (n: nat)
    requires i + 1 < |raw|
  {
    BigEndian16(raw[i], raw[i + 1])
  }

  /** `saturating_sub`. */
  function Saturating(a: nat, b: nat): (d: nat) {
    if a >= b then a - b else 0
  }

  // ----- kernel -----

  datatype Transport = Transport(srcPort: nat, dstPort: nat, flags: Byte, headerLen: nat, len: nat)

  function KernelTcp(raw: Frame, at: nat, len: nat): (r: Option<Transport>) {
    if at + TCP_MIN_LEN > |raw| || len < TCP_MIN_LEN then None
    else
      var offset := raw[at + 12] / 16;
      if offset < 5 || offset * 4 > len || at + offset * 4 > |raw| then None
      else Some(Transport(U16At(raw, at), U16At(raw, at + 2), raw[at + 13], offset * 4, len))
  }

  function KernelUdp(raw: Frame, at: nat, len: nat): (r: Option<Transport>) {
    if at + UDP_LEN > |raw| || len < UDP_LEN then None
    else
      var udpLen := U16At(raw, at + 4);
      if udpLen < UDP_LEN || udpLen > len then None
      else Some(Transport(U16At(raw, at), U16At(raw, at + 2), 0, UDP_LEN, udpLen))
  }

  function KernelTransport(raw: Frame, protocol: Byte, at: nat, len: nat): (r: Option<Transport>) {
    if protocol == TCP then KernelTcp(raw, at, len)
    else if protocol == UDP then KernelUdp(raw, at, len)
    else Some(Transport(0, 0, 0, 0, 0))
  }

  function KernelIpv4HeaderLen(raw: Frame): (r: Option<nat>) {
    if ETH_LEN + 1 > |raw| then None
    else
      var ihl := raw[ETH_LEN] % 16;
      if raw[ETH_LEN] / 16 != 4 || ihl < 5 || ETH_LEN + ihl * 4 > |raw| then None
      else Some(ihl * 4)
  }

  /** What a successful kernel parse reports; the addresses are the bytes it copies. */
  datatype KernelPacket = KernelPacket(
    version: nat, protocol: Byte, srcIp: seq<Byte>, dstIp: seq<Byte>, packetLength: nat, transport: Transport)
  {
    function PayloadLength(): (n: nat) {
      Saturating(transport.len, transport.headerLen)
    }
  }

  function KernelIpv4(raw: Frame): (r: Option<KernelPacket>) {
    if ETH_LEN + IPV4_MIN_LEN > |raw| then None
    else
      var header := KernelIpv4HeaderLen(raw);
      var total := U16At(raw, ETH_LEN + 2);
      if header.None? || total < header.value then None
      else
        var protocol := raw[ETH_LEN + 9];
        var l4 := KernelTransport(raw, protocol, ETH_LEN + header.value, total - header.value);
        if l4.None? then None
        else Some(KernelPacket(4, protocol, raw[ETH_LEN + 12..ETH_LEN + 16], raw[ETH_LEN + 16..ETH_LEN + 20], total, l4.value))
  }

  function KernelIpv6(raw: Frame): (r: Option<KernelPacket>) {
    if ETH_LEN + IPV6_LEN > |raw| then None
    else
      var payload := U16At(raw, ETH_LEN + 4);
      var protocol := raw[ETH_LEN + 6];
      var l4 := KernelTransport(raw, protocol, ETH_LEN + IPV6_LEN, payload);
      if l4.None? then None
      else Some(KernelPacket(6, protocol, raw[ETH_LEN + 8..ETH_LEN + 24], raw[ETH_LEN + 24..ETH_LEN + 40], IPV6_LEN + payload, l4.value))
  }

  function KernelParse(raw: Frame): (r: Option<KernelPacket>)
    ensures r.Some? ==> |r.value.srcIp| == |r.value.dstIp| == (if r.value.version == 4 then 4 else 16)
  {
    if |raw| < ETH_LEN then None
    else if U16At(raw, 12) == 0x0800 then KernelIpv4(raw)
    else if U16At(raw, 12) == 0x86DD then KernelIpv6(raw)
    else None
  }

  // ----- the kernel parser, byte by byte -----

  /** The bytes from `at`, of a segment of `len`, are the header that `t` reports. */
  predicate SegmentLaidOut(raw: Frame, protocol: Byte, at: nat, len: nat, t: Transport) {
    if protocol == 6 then
      && at + 20 <= |raw| && 20 <= len
      && Spell16(raw[at], raw[at + 1], t.srcPort) && Spell16(raw[at + 2], raw[at + 3], t.dstPort)
      && t.flags == raw[at + 13] && t.len == len
      && t.headerLen == raw[at + 12] / 16 * 4 && 20 <= t.headerLen <= len && at + t.headerLen <= |raw|
    else if protocol == 17 then
      && at + 8 <= |raw|
      && Spell16(raw[at], raw[at + 1], t.srcPort) && Spell16(raw[at + 2], raw[at + 3], t.dstPort)
      && Spell16(raw[at + 4], raw[at + 5], t.len) && 8 <= t.len <= len && t.headerLen == 8 && t.flags == 0
    else t == Transport(0, 0, 0, 0, 0)
  }

  /** The frame is an Ethernet frame with the IP packet that `k` reports: for IPv4 ether type 8, 0 and
      a first byte 64 plus the header length in words, for IPv6 ether type 134, 221. */
  predicate LaidOut(raw: Frame, k: KernelPacket) {
    if k.version == 4 then
      && |raw| >= 34 && raw[12] == 8 && raw[13] == 0 && 69 <= raw[14] <= 79
      && var header := (raw[14] - 64) * 4;
         && 14 + header <= |raw| && Spell16(raw[16], raw[17], k.packetLength) && header <= k.packetLength
         && k.protocol == raw[23] && k.srcIp == raw[26..30] && k.dstIp == raw[30..34]
         && SegmentLaidOut(raw, k.protocol, 14 + header, k.packetLength - header, k.transport)
    else
      && k.version == 6 && |raw| >= 54 && raw[12] == 134 && raw[13] == 221
      && Spell16(raw[18], raw[19], k.packetLength - 40)
      && k.protocol == raw[20] && k.srcIp == raw[22..38] && k.dstIp == raw[38..54]
      && SegmentLaidOut(raw, k.protocol, 54, k.packetLength - 40, k.transport)
  }

  lemma SegmentExactly(raw: Frame, protocol: Byte, at: nat, len: nat, t: Transport)
    ensures KernelTransport(raw, protocol, at, len) == Some(t) <==> SegmentLaidOut(raw, protocol, at, len, t)
  {
    if at + 8 <= |raw| {
      SpelledExactly(raw[at], raw[at + 1], t.srcPort);
      SpelledExactly(raw[at + 2], raw[at + 3], t.dstPort);
      SpelledExactly(raw[at + 4], raw[at + 5], t.len);
    }
  }

  lemma KernelIpv4Exactly(raw: Frame, k: KernelPacket)
    requires |raw| >= 34 && raw[12] == 8 && raw[13] == 0
    ensures KernelIpv4(raw) == Some(k) <==> k.version == 4 && LaidOut(raw, k)
  {
    SpelledExactly(raw[16], raw[17], k.packetLength);
    HeaderExactly(raw);
    var header := KernelIpv4HeaderLen(raw);
    if header.Some? && U16At(raw, 16) >= header.value {
      KernelIpv4Reads(raw, k, header.value, U16At(raw, 16));
      SegmentExactly(raw, raw[23], 14 + header.value, U16At(raw, 16) - header.value, k.transport);
    }
  }

  lemma HeaderExactly(raw: Frame)
    requires |raw| >= 34
    ensures KernelIpv4HeaderLen(raw) ==
            if 69 <= raw[14] <= 79 && 14 + (raw[14] - 64) * 4 <= |raw| then Some((raw[14] - 64) * 4) else None
  {}

  lemma KernelIpv4Reads(raw: Frame, k: KernelPacket, header: nat, total: nat)
    requires |raw| >= 34 && KernelIpv4HeaderLen(raw) == Some(header) && total == U16At(raw, 16) && header <= total
    ensures KernelIpv4(raw) == Some(k) <==>
            && k.version == 4 && k.protocol == raw[23] && k.packetLength == total
            && k.srcIp == raw[26..30] && k.dstIp == raw[30..34]
            && KernelTransport(raw, raw[23], 14 + header, total - header) == Some(k.transport)
  {}

  lemma KernelIpv6Exactly(raw: Frame, k: KernelPacket)
    requires |raw| >= 54 && raw[12] == 134 && raw[13] == 221
    ensures KernelIpv6(raw) == Some(k) <==> k.version == 6 && LaidOut(raw, k)
  {
    SpelledExactly(raw[18], raw[19], k.packetLength - 40);
    SegmentExactly(raw, raw[20], 54, U16At(raw, 18), k.transport);
  }

  /** For every frame and packet: the kernel reports the packet exactly when its bytes lay it out. */
  lemma KernelParseExactly(raw: Frame, k: KernelPacket)
    ensures KernelParse(raw) == Some(k) <==> LaidOut(raw, k)
  {
    if |raw| >= 14 {
      SpelledExactly(raw[12], raw[13], 0x0800);
      SpelledExactly(raw[12], raw[13], 0x86DD);
      if |raw| >= 34 && raw[12] == 8 && raw[13] == 0 { KernelIpv4Exactly(raw, k); }
      if |raw| >= 54 && raw[12] == 134 && raw[13] == 221 { KernelIpv6Exactly(raw, k); }
    }
  }

  /** The target the kernel writes; bytes 4 to 15 of an IPv4 address keep what they held. */
  class ParsedPacket {
    var srcIp: seq<Byte>
    var dstIp: seq<Byte>
    var packetLength: nat
    var payloadLength: nat
    var srcPort: nat
    var dstPort: nat
    var ipVersion: nat
    var protocol: Byte
    var tcpFlags: Byte

    constructor ()
      ensures srcIp == Zeros(16) && dstIp == Zeros(16)
    {
      srcIp, dstIp, packetLength, payloadLength := Zeros(16), Zeros(16), 0, 0;
      srcPort, dstPort, ipVersion, protocol, tcpFlags := 0, 0, 0, 0, 0;
    }

    method Parse(raw: Frame) returns (ok: bool)
      requires |srcIp| == |dstIp| == 16
      modifies this
      ensures |srcIp| == |dstIp| == 16
      ensures ok <==> KernelParse(raw).Some?
      ensures ok ==> Holds(KernelParse(raw).value)
      ensures ok ==> var n := |KernelParse(raw).value.srcIp|;
                     srcIp[n..] == old(srcIp[n..]) && dstIp[n..] == old(dstIp[n..])
    {
      if |raw| < ETH_LEN { return false; }
      var etherType := U16At(raw, 12);
      if etherType == 0x0800 {
        if ETH_LEN + IPV4_MIN_LEN > |raw| { return false; }
        var header := KernelIpv4HeaderLen(raw);
        if header.None? { return false; }
        var total := U16At(raw, ETH_LEN + 2);
        if total < header.value { return false; }
        srcIp := raw[ETH_LEN + 12..ETH_LEN + 16] + srcIp[4..];
        dstIp := raw[ETH_LEN + 16..ETH_LEN + 20] + dstIp[4..];
        packetLength, ipVersion, protocol := total, 4, raw[ETH_LEN + 9];
        ok := WriteTransport(raw, ETH_LEN + header.value, total - header.value);
      } else if etherType == 0x86DD {
        if ETH_LEN + IPV6_LEN > |raw| { return false; }
        var payload := U16At(raw, ETH_LEN + 4);
        srcIp := raw[ETH_LEN + 8..ETH_LEN + 24];
        dstIp := raw[ETH_LEN + 24..ETH_LEN + 40];
        packetLength, ipVersion, protocol := IPV6_LEN + payload, 6, raw[ETH_LEN + 6];
        ok := WriteTransport(raw, ETH_LEN + IPV6_LEN, payload);
      } else {
        return false;
      }
    }

    method WriteTransport(raw: Frame, at: nat, len: nat) returns (ok: bool)
      modifies `payloadLength, `srcPort, `dstPort, `tcpFlags
      ensures var t := KernelTransport(raw, protocol, at, len);
              && (ok <==> t.Some?)
              && (ok ==> srcPort == t.value.srcPort && dstPort == t.value.dstPort && tcpFlags == t.value.flags
                         && payloadLength == Saturating(t.value.len, t.value.headerLen))
    {
      var t := KernelTransport(raw, protocol, at, len);
      if t.None? { return false; }
      payloadLength := Saturating(t.value.len, t.value.headerLen);
      srcPort, dstPort, tcpFlags := t.value.srcPort, t.value.dstPort, t.value.flags;
      ok := true;
    }

    ghost predicate Holds(p: KernelPacket)
      requires |srcIp| == |dstIp| == 16
      reads this
    {
      && p.srcIp <= srcIp && p.dstIp <= dstIp
      && ipVersion == p.version && protocol == p.protocol && packetLength == p.packetLength
      && payloadLength == p.PayloadLength()
      && srcPort == p.transport.srcPort && dstPort == p.transport.dstPort && tcpFlags == p.transport.flags
    }
  }

  // ----- user space -----

  datatype UserPacket = UserPacket(
    version: nat, protocol: Byte, tcpFlags: Byte, srcIp: seq<Byte>, dstIp: seq<Byte>, srcPort: nat, dstPort: nat,
    packetLength: nat, payloadLength: nat, headerLength: nat, tcpWindowSize: nat, timestampUs: nat)

  /** Flags, window size, header length and transport length; `len` bytes follow the IP header. */
  function UserTransport(raw: Frame, protocol: Byte, at: nat, len: nat): (r: Option<(Byte, nat, nat, nat)>)
    requires at + len <= |raw|
  {
    if protocol == TCP then
      if len < TCP_MIN_LEN then None
      else
        var offset := raw[at + 12] / 16 * 4;
        if offset < TCP_MIN_LEN || len < offset then None
        else Some((raw[at + 13], U16At(raw, at + 14), offset, len))
    else if protocol == UDP then
      if len < UDP_LEN then None
      else
        var udpLen := U16At(raw, at + 4);
        if udpLen < UDP_LEN || len < udpLen then None
        else Some((0, 0, UDP_LEN, udpLen))
    else None
  }

  function UserIpv4(raw: Frame, timestampUs: nat): (r: Option<(UserPacket, nat)>) {
    if |raw| < ETH_LEN + IPV4_MIN_LEN || raw[ETH_LEN] / 16 != 4 then None
    else
      var protocol := raw[ETH_LEN + 9];
      var ihl := raw[ETH_LEN] % 16 * 4;
      var total := U16At(raw, ETH_LEN + 2);
      if ihl < IPV4_MIN_LEN || total < ihl || |raw| < ETH_LEN + total then None
      else if total < ihl + 4 then None
      else
        var at := ETH_LEN + ihl;
        var l4 := UserTransport(raw, protocol, at, total - ihl);
        if l4.None? then None
        else
          Some((UserPacket(4, protocol, l4.value.0,
                           raw[ETH_LEN + 12..ETH_LEN + 16] + Zeros(12), raw[ETH_LEN + 16..ETH_LEN + 20] + Zeros(12),
                           U16At(raw, at), U16At(raw, at + 2), total,
                           Saturating(l4.value.3, l4.value.2), l4.value.2, l4.value.1, timestampUs),
                at + l4.value.2))
  }

  function UserIpv6(raw: Frame, timestampUs: nat): (r: Option<(UserPacket, nat)>) {
    if |raw| < ETH_LEN + IPV6_LEN || raw[ETH_LEN] / 16 != 6 then None
    else
      var protocol := raw[ETH_LEN + 6];
      var payload := U16At(raw, ETH_LEN + 4);
      if |raw| < ETH_LEN + IPV6_LEN + payload || payload < 4 then None
      else
        var at := ETH_LEN + IPV6_LEN;
        var l4 := UserTransport(raw, protocol, at, payload);
        if l4.None? then None
        else
          Some((UserPacket(6, protocol, l4.value.0,
                           raw[ETH_LEN + 8..ETH_LEN + 24], raw[ETH_LEN + 24..ETH_LEN + 40],
                           U16At(raw, at), U16At(raw, at + 2), IPV6_LEN + payload,
                           Saturating(l4.value.3, l4.value.2), l4.value.2, l4.value.1, timestampUs),
                at + l4.value.2))
  }

  /** The packet and the offset of its payload. */
  function UserParse(raw: Frame, timestampUs: nat): (r: Option<(UserPacket, nat)>) {
    if |raw| < ETH_LEN then None
    else if U16At(raw, 12) == 0x0800 then UserIpv4(raw, timestampUs)
    else if U16At(raw, 12) == 0x86DD then UserIpv6(raw, timestampUs)
    else None
  }

  // ----- the user-space parser, byte by byte -----

  /** The bytes from `at`, of a segment of `len`, are the header that `u` reports, and `payload` is
      where its payload begins. */
  predicate UserSegmentLaidOut(raw: Frame, u: UserPacket, at: nat, len: nat, payload: nat)
    requires at + len <= |raw|
  {
    && len >= 8 && payload == at + u.headerLength
    && Spell16(raw[at], raw[at + 1], u.srcPort) && Spell16(raw[at + 2], raw[at + 3], u.dstPort)
    && (if u.protocol == 6 then
          && len >= 20 && u.tcpFlags == raw[at + 13] && Spell16(raw[at + 14], raw[at + 15], u.tcpWindowSize)
          && u.headerLength == raw[at + 12] / 16 * 4 && 20 <= u.headerLength && u.headerLength + u.payloadLength == len
        else
          && u.protocol == 17 && u.tcpFlags == 0 && u.tcpWindowSize == 0 && u.headerLength == 8
          && Spell16(raw[at + 4], raw[at + 5], 8 + u.payloadLength) && 8 + u.payloadLength <= len)
  }

  predicate UserLaidOut(raw: Frame, u: UserPacket, payload: nat) {
    if u.version == 4 then
      && |raw| >= 34 && raw[12] == 8 && raw[13] == 0 && 69 <= raw[14] <= 79
      && var header := (raw[14] - 64) * 4;
         && Spell16(raw[16], raw[17], u.packetLength) && header <= u.packetLength && 14 + u.packetLength <= |raw|
         && u.protocol == raw[23] && u.srcIp == raw[26..30] + Zeros(12) && u.dstIp == raw[30..34] + Zeros(12)
         && UserSegmentLaidOut(raw, u, 14 + header, u.packetLength - header, payload)
    else
      && u.version == 6 && |raw| >= 54 && raw[12] == 134 && raw[13] == 221 && 96 <= raw[14] <= 111
      && Spell16(raw[18], raw[19], u.packetLength - 40) && 14 + u.packetLength <= |raw|
      && u.protocol == raw[20] && u.srcIp == raw[22..38] && u.dstIp == raw[38..54]
      && UserSegmentLaidOut(raw, u, 54, u.packetLength - 40, payload)
  }

  /** The facts of a segment as the user-space parser reads them. */
  predicate ReadsSegment(raw: Frame, u: UserPacket, at: nat, len: nat, payload: nat)
    requires at + len <= |raw| && len >= 4
  {
    var l4 := UserTransport(raw, u.protocol, at, len);
    && l4.Some? && u.tcpFlags == l4.value.0 && u.tcpWindowSize == l4.value.1 && u.headerLength == l4.value.2
    && u.payloadLength == Saturating(l4.value.3, l4.value.2) && payload == at + l4.value.2
    && u.srcPort == U16At(raw, at) && u.dstPort == U16At(raw, at + 2)
  }

  lemma UserSegmentExactly(raw: Frame, u: UserPacket, at: nat, len: nat, payload: nat)
    requires at + len <= |raw| && len >= 4
    ensures ReadsSegment(raw, u, at, len, payload) <==> UserSegmentLaidOut(raw, u, at, len, payload)
  {
    SpelledExactly(raw[at], raw[at + 1], u.srcPort);
    SpelledExactly(raw[at + 2], raw[at + 3], u.dstPort);
    if len >= 8 { SpelledExactly(raw[at + 4], raw[at + 5], 8 + u.payloadLength); }
    if len >= 20 { SpelledExactly(raw[at + 14], raw[at + 15], u.tcpWindowSize); }
  }

  lemma UserIpv4Exactly(raw: Frame, u: UserPacket, payload: nat)
    requires |raw| >= 34 && raw[12] == 8 && raw[13] == 0
    ensures UserIpv4(raw, u.timestampUs) == Some((u, payload)) <==> u.version == 4 && UserLaidOut(raw, u, payload)
  {
    SpelledExactly(raw[16], raw[17], u.packetLength);
    var ihl, total := raw[14] % 16 * 4, U16At(raw, 16);
    if 69 <= raw[14] <= 79 && ihl + 4 <= total && 14 + total <= |raw| {
      assert ihl == (raw[14] - 64) * 4;
      UserSegmentExactly(raw, u, 14 + ihl, total - ihl, payload);
      UserIpv4Reads(raw, u, payload, ihl, total);
    }
  }

  lemma UserIpv4Reads(raw: Frame, u: UserPacket, payload: nat, ihl: nat, total: nat)
    requires |raw| >= 34 && 69 <= raw[14] <= 79 && ihl == (raw[14] - 64) * 4 && total == U16At(raw, 16)
    requires ihl + 4 <= total && 14 + total <= |raw|
    ensures UserIpv4(raw, u.timestampUs) == Some((u, payload)) <==>
            && u.version == 4 && u.protocol == raw[23] && u.packetLength == total
            && u.srcIp == raw[26..30] + Zeros(12) && u.dstIp == raw[30..34] + Zeros(12)
            && ReadsSegment(raw, u, 14 + ihl, total - ihl, payload)
  {}

  lemma UserIpv6Exactly(raw: Frame, u: UserPacket, payload: nat)
    requires |raw| >= 54 && raw[12] == 134 && raw[13] == 221
    ensures UserIpv6(raw, u.timestampUs) == Some((u, payload)) <==> u.version == 6 && UserLaidOut(raw, u, payload)
  {
    SpelledExactly(raw[18], raw[19], u.packetLength - 40);
    if U16At(raw, 18) >= 4 && 54 + U16At(raw, 18) <= |raw| {
      UserSegmentExactly(raw, u, 54, U16At(raw, 18), payload);
    }
  }

  /** For every frame, packet and offset: user space reports them exactly when the bytes lay them
      out. */
  lemma UserParseExactly(raw: Frame, timestampUs: nat, u: UserPacket, payload: nat)
    ensures UserParse(raw, timestampUs) == Some((u, payload)) <==> u.timestampUs == timestampUs && UserLaidOut(raw, u, payload)
  {
    if |raw| >= 14 {
      SpelledExactly(raw[12], raw[13], 0x0800);
      SpelledExactly(raw[12], raw[13], 0x86DD);
      if |raw| >= 34 && raw[12] == 8 && raw[13] == 0 { UserIpv4Exactly(raw, u, payload); }
      if |raw| >= 54 && raw[12] == 134 && raw[13] == 221 { UserIpv6Exactly(raw, u, payload); }
    }
  }

  // ----- agreement -----

  predicate SameFacts(u: UserPacket, k: KernelPacket) {
    && u.version == k.version && u.protocol == k.protocol
    && k.srcIp <= u.srcIp && k.dstIp <= u.dstIp
    && u.srcPort == k.transport.srcPort && u.dstPort == k.transport.dstPort
    && u.tcpFlags == k.transport.flags && u.headerLength == k.transport.headerLen
    && u.packetLength == k.packetLength && u.payloadLength == k.PayloadLength()
  }

  /** Where the whole payload is in the frame, the transport parsers agree on TCP and UDP. */
  lemma TransportsAgree(raw: Frame, protocol: Byte, at: nat, len: nat)
    requires at + len <= |raw| && (protocol == TCP || protocol == UDP)
    ensures var u, k := UserTransport(raw, protocol, at, len), KernelTransport(raw, protocol, at, len);
            && (u.Some? <==> k.Some?)
            && (u.Some? ==> len >= 8 && u.value.0 == k.value.flags && u.value.2 == k.value.headerLen && u.value.3 == k.value.len
                            && k.value.srcPort == U16At(raw, at) && k.value.dstPort == U16At(raw, at + 2))
  {}

  lemma Ipv4Agree(raw: Frame, timestampUs: nat)
    ensures var u, k := UserIpv4(raw, timestampUs), KernelIpv4(raw);
            && (u.Some? <==> k.Some? && (k.value.protocol == TCP || k.value.protocol == UDP)
                             && |raw| >= ETH_LEN + k.value.packetLength)
            && (u.Some? ==> SameFacts(u.value.0, k.value))
  {
    if |raw| >= ETH_LEN + IPV4_MIN_LEN {
      var protocol, ihl, total := raw[ETH_LEN + 9], raw[ETH_LEN] % 16 * 4, U16At(raw, ETH_LEN + 2);
      if ihl <= total && ETH_LEN + total <= |raw| && (protocol == TCP || protocol == UDP) {
        TransportsAgree(raw, protocol, ETH_LEN + ihl, total - ihl);
      }
    }
  }

  lemma Ipv6Agree(raw: Frame, timestampUs: nat)
    ensures var u, k := UserIpv6(raw, timestampUs), KernelIpv6(raw);
            && (u.Some? <==> k.Some? && (k.value.protocol == TCP || k.value.protocol == UDP)
                             && |raw| >= ETH_LEN + k.value.packetLength && raw[ETH_LEN] / 16 == 6)
            && (u.Some? ==> SameFacts(u.value.0, k.value))
  {
    if |raw| >= ETH_LEN + IPV6_LEN {
      var protocol, payload := raw[ETH_LEN + 6], U16At(raw, ETH_LEN + 4);
      if ETH_LEN + IPV6_LEN + payload <= |raw| && (protocol == TCP || protocol == UDP) {
        TransportsAgree(raw, protocol, ETH_LEN + IPV6_LEN, payload);
      }
    }
  }

  /** User space accepts exactly the frames the kernel accepts as TCP or UDP that hold the whole
      datagram and carry the right version nibble, and then both report the same facts. */
  lemma UserIffKernel(raw: Frame, timestampUs: nat)
    ensures var u, k := UserParse(raw, timestampUs), KernelParse(raw);
            && (u.Some? <==> && k.Some? && (k.value.protocol == TCP || k.value.protocol == UDP)
                             && |raw| >= ETH_LEN + k.value.packetLength
                             && raw[ETH_LEN] / 16 == k.value.version)
            && (u.Some? ==> SameFacts(u.value.0, k.value))
  {
    Ipv4Agree(raw, timestampUs);
    Ipv6Agree(raw, timestampUs);
  }

  /** A DNS query frame is a UDP packet to port 53 for user space, with the QNAME twelve bytes
      into its payload, exactly when its version nibble fits its EtherType. */
  lemma DnsQueryIsUdpToPort53(raw: Frame, timestampUs: nat)
    requires DnsFilter.QueryRegion(raw).Some?
    ensures var u := UserParse(raw, timestampUs);
            var nibble := if U16At(raw, 12) == 0x0800 then 4 else 6;
            && (u.Some? <==> raw[ETH_LEN] / 16 == nibble)
            && (u.Some? ==> && u.value.0.protocol == UDP && u.value.0.dstPort == 53
                            && u.value.1 + 12 == DnsFilter.QueryRegion(raw).value.0
                            && u.value.1 + u.value.0.payloadLength == DnsFilter.QueryRegion(raw).value.1)
  {}

  /** The other way, for both IP versions: the region searched for a name is, exactly, the payload
      after the DNS header of a UDP packet to port 53 whose payload is a DNS query. */
  lemma UdpToPort53IsDnsQuery(raw: Frame, timestampUs: nat, u: UserPacket, payload: nat)
    requires UserParse(raw, timestampUs) == Some((u, payload))
    ensures var end := payload + u.payloadLength;
            DnsFilter.QueryRegion(raw) == if u.protocol == UDP && u.dstPort == 53 && DnsFilter.IsDnsMessage(raw, payload, end)
                                          then Some((payload + 12, end)) else None
  {
    UserParseExactly(raw, timestampUs, u, payload);
    if u.protocol == UDP { UdpQueryRegion(raw, u, payload); } else { NoQueryRegion(raw, u, payload); }
  }

  lemma UdpQueryRegion(raw: Frame, u: UserPacket, payload: nat)
    requires UserLaidOut(raw, u, payload) && u.protocol == UDP
    ensures var end := payload + u.payloadLength;
            DnsFilter.QueryRegion(raw) == if u.dstPort == 53 && DnsFilter.IsDnsMessage(raw, payload, end)
                                          then Some((payload + 12, end)) else None
  {
    var header := if u.version == 4 then (raw[14] - 64) * 4 else 40;
    UdpPacketAt(raw, u, payload, header);
    QueryAgrees(raw, u, payload, header);
    var udp := 14 + header;
    forall end: nat | DnsFilter.IsDnsQuery(raw, udp, end) ensures end == payload + u.payloadLength {
      SameEnd(raw, u, payload, header, end);
    }
    RegionOf(raw, header, udp, 14 + u.packetLength, payload + u.payloadLength);
  }

  /** Where only `end` can end a query, it decides whether there is a region. */
  lemma RegionOf(raw: Frame, header: nat, udp: nat, ipEnd: nat, end: nat)
    requires DnsFilter.UdpAt(raw, header, ipEnd) && end <= ipEnd && udp == 14 + header
    requires forall e: nat :: DnsFilter.IsDnsQuery(raw, udp, e) ==> e == end
    ensures DnsFilter.QueryRegion(raw) == if DnsFilter.IsDnsQuery(raw, udp, end) then Some((header + 34, end)) else None
  {
    DnsFilter.QueryAtExactly(raw, header, ipEnd, header + 34, end);
    if DnsFilter.QueryRegion(raw).Some? {
      var r := DnsFilter.QueryRegion(raw).value;
      DnsFilter.QueryAtExactly(raw, header, ipEnd, r.0, r.1);
    }
  }

  lemma NoQueryRegion(raw: Frame, u: UserPacket, payload: nat)
    requires UserLaidOut(raw, u, payload) && u.protocol != UDP
    ensures DnsFilter.QueryRegion(raw) == None
  {
    if DnsFilter.UdpInIp(raw).Some? {
      var ip := DnsFilter.UdpInIp(raw).value;
      DnsFilter.UdpInIpExactly(raw, ip.0, ip.1);
    }
  }

  lemma UdpPacketAt(raw: Frame, u: UserPacket, payload: nat, header: nat)
    requires UserLaidOut(raw, u, payload) && u.protocol == UDP && header == if u.version == 4 then (raw[14] - 64) * 4 else 40
    ensures DnsFilter.UdpAt(raw, header, 14 + u.packetLength) && payload == header + 22
    ensures payload + u.payloadLength <= 14 + u.packetLength
  {}

  lemma QueryAgrees(raw: Frame, u: UserPacket, payload: nat, header: nat)
    requires UserLaidOut(raw, u, payload) && u.protocol == UDP && header == if u.version == 4 then (raw[14] - 64) * 4 else 40
    ensures DnsFilter.IsDnsQuery(raw, 14 + header, payload + u.payloadLength) <==> u.dstPort == 53 && DnsFilter.IsDnsMessage(raw, payload, payload + u.payloadLength)
  {
    UdpPacketAt(raw, u, payload, header);
  }

  /** A datagram has one length. */
  lemma SameEnd(raw: Frame, u: UserPacket, payload: nat, header: nat, end: nat)
    requires UserLaidOut(raw, u, payload) && u.protocol == UDP && header == if u.version == 4 then (raw[14] - 64) * 4 else 40
    requires DnsFilter.IsDnsQuery(raw, 14 + header, end)
    ensures end == payload + u.payloadLength
  {
    UdpPacketAt(raw, u, payload, header);
  }

  /** With the right nibble both parsers accept a parsed query as UDP to port 53. */
  lemma BothAcceptDnsQuery(raw: Frame, timestampUs: nat)
    requires DnsFilter.QueryName(raw).Some?
    requires raw[ETH_LEN] / 16 == if U16At(raw, 12) == 0x0800 then 4 else 6
    ensures var u, k := UserParse(raw, timestampUs), KernelParse(raw);
            && u.Some? && u.value.0.protocol == UDP && u.value.0.dstPort == 53
            && k.Some? && k.value.protocol == UDP && k.value.transport.dstPort == 53
  {
    DnsQueryIsUdpToPort53(raw, timestampUs);
    UserIffKernel(raw, timestampUs);
  }
}
