// The DNS query filter of net-guardia/src/core/data_plane/dns_filter.rs: it finds the QNAME of
// a raw Ethernet frame (sections 4.1.1 and 4.1.2 of RFC 1035) and looks up the name and every
// parent domain in the blacklist.

module DnsFilter {
  import opened Basics
  import opened AsciiText
  import opened DnsCodec

  const ETH_HEADER_LEN := 14
  const IPV4_MIN_HEADER_LEN := 20
  const IPV6_HEADER_LEN := 40
  const UDP_HEADER_LEN := 8
  const UDP_PROTOCOL := 17
  const DNS_PORT := 53
  const DNS_HEADER_LEN := 12
  const MAX_LABELS := 32

  type Frame = seq<Byte>

  /** Length of the IP header and end of the IP payload of a frame carrying UDP. */
  function UdpInIp(raw: Frame): (r: Option<(nat, nat)>)
    ensures r.Some? ==> r.value.0 >= IPV4_MIN_HEADER_LEN && r.value.1 <= |raw|
  {
    if |raw| < ETH_HEADER_LEN then None
    else if BigEndian16(raw[12], raw[13]) == 0x0800 then
      if |raw| < ETH_HEADER_LEN + IPV4_MIN_HEADER_LEN then None
      else
        var ihl := raw[14] % 16 * 4;
        var total := BigEndian16(raw[16], raw[17]);
        if ihl < IPV4_MIN_HEADER_LEN then None
        else if total < ihl || |raw| < ETH_HEADER_LEN + total then None
        else if raw[ETH_HEADER_LEN + 9] != UDP_PROTOCOL then None
        else Some((ihl, ETH_HEADER_LEN + total))
    else if BigEndian16(raw[12], raw[13]) == 0x86DD then
      if |raw| < ETH_HEADER_LEN + IPV6_HEADER_LEN + UDP_HEADER_LEN then None
      else if raw[ETH_HEADER_LEN + 6] != UDP_PROTOCOL then None
      else
        var payload := BigEndian16(raw[18], raw[19]);
        if |raw| < ETH_HEADER_LEN + IPV6_HEADER_LEN + payload then None
        else Some((IPV6_HEADER_LEN, ETH_HEADER_LEN + IPV6_HEADER_LEN + payload))
    else None
  }

  /** Start of the QNAME and end of the UDP payload, for a DNS query from `udp` on. */
  function QueryInUdp(raw: Frame, udp: nat, ipEnd: nat): (r: Option<(nat, nat)>)
    requires ipEnd <= |raw|
    ensures r.Some? ==> r.value.0 < r.value.1 <= ipEnd
  {
    if udp + UDP_HEADER_LEN > ipEnd then None
    else if BigEndian16(raw[udp + 2], raw[udp + 3]) != DNS_PORT then None
    else
      var udpLen := BigEndian16(raw[udp + 4], raw[udp + 5]);
      if udpLen < UDP_HEADER_LEN || udp + udpLen > ipEnd then None
      else QueryInDns(raw, udp + UDP_HEADER_LEN, udp + udpLen)
  }

  function QueryInDns(raw: Frame, dns: nat, end: nat): (r: Option<(nat, nat)>)
    requires end <= |raw|
    ensures r.Some? ==> r.value.0 < r.value.1 <= end
  {
    if dns + DNS_HEADER_LEN > end then None
    else if raw[dns + 2] >= 0x80 then None
    else if raw[dns + 4] == 0 && raw[dns + 5] == 0 then None
    else if dns + DNS_HEADER_LEN >= end then None
    else Some((dns + DNS_HEADER_LEN, end))
  }

  /** Start of the QNAME and end of the UDP payload of a frame that is a DNS query. */
  function QueryRegion(raw: Frame): (r: Option<(nat, nat)>)
    ensures r.Some? ==> r.value.0 < r.value.1 <= |raw|
  {
    var ip := UdpInIp(raw);
    if ip.None? then None else QueryInUdp(raw, ETH_HEADER_LEN + ip.value.0, ip.value.1)
  }

  /** An IP packet with a UDP payload, byte by byte: for IPv4 ether type 8, 0 and a header of
      `header` bytes, for IPv6 ether type 134, 221 and one of 40; the packet ends at `end`. */
  predicate UdpAt(raw: Frame, header: nat, end: nat) {
    && end <= |raw|
    && (|| (&& |raw| >= 34 && raw[12] == 8 && raw[13] == 0 && raw[23] == 17
            && header == raw[14] % 16 * 4 && header >= 20
            && Spell16(raw[16], raw[17], end - 14) && 14 + header <= end)
        || (&& |raw| >= 62 && raw[12] == 134 && raw[13] == 221 && raw[20] == 17
            && header == 40 && Spell16(raw[18], raw[19], end - 54)))
  }

  /** From `dns` to `end` is a DNS header with the query bit clear and a question, and more. */
  predicate IsDnsMessage(raw: Frame, dns: nat, end: nat) {
    dns + 12 < end <= |raw| && raw[dns + 2] < 128 && (raw[dns + 4] != 0 || raw[dns + 5] != 0)
  }

  /** From `udp` to `end` is a whole UDP datagram to port 53 that holds such a message. */
  predicate IsDnsQuery(raw: Frame, udp: nat, end: nat) {
    && udp + 8 <= end <= |raw| && raw[udp + 2] == 0 && raw[udp + 3] == 53
    && Spell16(raw[udp + 4], raw[udp + 5], end - udp) && IsDnsMessage(raw, udp + 8, end)
  }

  lemma UdpInIpExactly(raw: Frame, header: nat, end: nat)
    ensures UdpInIp(raw) == Some((header, end)) <==> UdpAt(raw, header, end)
  {
    if |raw| >= 34 {
      SpelledExactly(raw[12], raw[13], 0x0800);
      SpelledExactly(raw[12], raw[13], 0x86DD);
      SpelledExactly(raw[16], raw[17], end - 14);
      SpelledExactly(raw[18], raw[19], end - 54);
    }
  }

  lemma QueryInUdpExactly(raw: Frame, udp: nat, ipEnd: nat, start: nat, end: nat)
    requires ipEnd <= |raw|
    ensures QueryInUdp(raw, udp, ipEnd) == Some((start, end)) <==> start == udp + 20 && end <= ipEnd && IsDnsQuery(raw, udp, end)
  {
    if udp + 8 <= ipEnd {
      var len := BigEndian16(raw[udp + 4], raw[udp + 5]);
      Port53(raw[udp + 2], raw[udp + 3]);
      SpelledExactly(raw[udp + 4], raw[udp + 5], end - udp);
      if BigEndian16(raw[udp + 2], raw[udp + 3]) != DNS_PORT {
        assert QueryInUdp(raw, udp, ipEnd) == None;
      } else if len < 8 || udp + len > ipEnd {
        assert QueryInUdp(raw, udp, ipEnd) == None;
      } else {
        assert QueryInUdp(raw, udp, ipEnd) == QueryInDns(raw, udp + 8, udp + len);
        QueryInDnsExactly(raw, udp + 8, udp + len, start, end);
      }
    }
  }

  lemma Port53(hi: Byte, lo: Byte)
    ensures BigEndian16(hi, lo) == DNS_PORT <==> hi == 0 && lo == 53
  {}

  lemma QueryInDnsExactly(raw: Frame, dns: nat, whole: nat, start: nat, end: nat)
    requires whole <= |raw|
    ensures QueryInDns(raw, dns, whole) == Some((start, end)) <==> start == dns + 12 && end == whole && IsDnsMessage(raw, dns, end)
  {}

  /** The bytes are an IP packet of either version with a DNS query in its UDP payload, and from
      `start` to `end` is what follows the DNS header. */
  predicate QueryAt(raw: Frame, header: nat, ipEnd: nat, start: nat, end: nat) {
    UdpAt(raw, header, ipEnd) && start == header + 34 && end <= ipEnd && IsDnsQuery(raw, 14 + header, end)
  }

  lemma QueryAtExactly(raw: Frame, header: nat, ipEnd: nat, start: nat, end: nat)
    requires UdpAt(raw, header, ipEnd)
    ensures QueryRegion(raw) == Some((start, end)) <==> QueryAt(raw, header, ipEnd, start, end)
  {
    UdpInIpExactly(raw, header, ipEnd);
    QueryInUdpExactly(raw, 14 + header, ipEnd, start, end);
  }

  /** For every frame: a query region is found exactly when the bytes spell such a packet. */
  lemma QueryRegionExact(raw: Frame, start: nat, end: nat)
    ensures QueryRegion(raw) == Some((start, end)) <==>
            exists header: nat, ipEnd: nat :: QueryAt(raw, header, ipEnd, start, end)
  {
    if QueryRegion(raw) == Some((start, end)) {
      var header, ipEnd := UdpInIp(raw).value.0, UdpInIp(raw).value.1;
      UdpInIpExactly(raw, header, ipEnd);
      QueryAtExactly(raw, header, ipEnd, start, end);
    }
    if header: nat, ipEnd: nat :| QueryAt(raw, header, ipEnd, start, end) {
      QueryAtExactly(raw, header, ipEnd, start, end);
    }
  }

  // ----- reading the QNAME -----

  /** The bytes from `pos`, within `end`, are the labels `ls` and the terminating zero. */
  predicate Spells(raw: Frame, pos: nat, end: nat, ls: seq<Label>) {
    && LabelsOk(ls)
    && pos + |Wire(ls)| + 1 <= end <= |raw|
    && raw[pos..pos + |Wire(ls)| + 1] == Wire(ls) + [0]
  }

  /** What the bounded label loop reads with `n` turns left and `out` bytes written. */
  function ReadQname(raw: Frame, pos: nat, end: nat, out: nat, n: nat): (r: Option<seq<Label>>)
    requires end <= |raw|
    decreases n
  {
    if n == 0 || pos >= end then None
    else
      var ll := raw[pos];
      if ll == 0 then Some([])
      else if ll >= LABEL_CAPACITY || out + 1 + ll >= NAME_CAPACITY || pos + 1 + ll > end then None
      else After([raw[pos + 1..pos + 1 + ll]], ReadQname(raw, pos + 1 + ll, end, out + 1 + ll, n - 1))
  }

  lemma SpellsStep(raw: Frame, pos: nat, end: nat, l: Label, ls: seq<Label>)
    requires 0 < |l| < LABEL_CAPACITY
    ensures Spells(raw, pos, end, [l] + ls) <==>
            pos + 1 + |l| <= end <= |raw| && raw[pos] == |l| && raw[pos + 1..pos + 1 + |l|] == l
            && Spells(raw, pos + 1 + |l|, end, ls)
  {
    LabelsOkCons(l, ls);
    if LabelsOk(ls) {
      var n := |l|;
      var w := Wire(ls) + [0];
      assert ([l] + ls)[1..] == ls;
      assert Wire([l] + ls) + [0] == [n] + l + w;
      if pos + 1 + n + |w| <= end <= |raw| {
        SlicesMatch(raw, pos, l, w);
      }
    }
  }

  lemma LabelsOkCons(l: Label, ls: seq<Label>)
    requires 0 < |l| < LABEL_CAPACITY
    ensures LabelsOk([l] + ls) <==> LabelsOk(ls)
  {
    if LabelsOk([l] + ls) {
      forall i | 0 <= i < |ls| ensures 0 < |ls[i]| < LABEL_CAPACITY { assert ([l] + ls)[i + 1] == ls[i]; }
    }
  }

  lemma SlicesMatch(raw: seq<Byte>, pos: nat, l: Label, w: seq<Byte>)
    requires |l| < LABEL_CAPACITY && pos + 1 + |l| + |w| <= |raw|
    ensures raw[pos..pos + 1 + |l| + |w|] == [|l|] + l + w <==>
            && raw[pos] == |l| && raw[pos + 1..pos + 1 + |l|] == l
            && raw[pos + 1 + |l|..pos + 1 + |l| + |w|] == w
  {
    Slices(raw, pos, |l|, |w|);
    SameParts(raw[pos], raw[pos + 1..pos + 1 + |l|], raw[pos + 1 + |l|..pos + 1 + |l| + |w|], |l|, l, w);
  }

  lemma Slices(raw: seq<Byte>, pos: nat, n: nat, m: nat)
    requires pos + 1 + n + m <= |raw|
    ensures raw[pos..pos + 1 + n + m] == [raw[pos]] + raw[pos + 1..pos + 1 + n] + raw[pos + 1 + n..pos + 1 + n + m]
  {}

  lemma SameParts(x: Byte, a: seq<Byte>, b: seq<Byte>, y: Byte, c: seq<Byte>, d: seq<Byte>)
    requires |a| == |c|
    ensures [x] + a + b == [y] + c + d <==> x == y && a == c && b == d
  {
    var s, t := [x] + a + b, [y] + c + d;
    if s == t {
      assert s[0] == x && t[0] == y;
      assert s[1..1 + |a|] == a && t[1..1 + |c|] == c;
      assert s[1 + |a|..] == b && t[1 + |c|..] == d;
    }
  }

  /** The loop reads exactly the well-formed names of at most 31 labels that fit 128 bytes. */
  lemma {:induction false} ReadQnameExact(raw: Frame, pos: nat, end: nat, out: nat, n: nat, ls: seq<Label>)
    requires end <= |raw| && out < NAME_CAPACITY
    ensures ReadQname(raw, pos, end, out, n) == Some(ls) <==>
            Spells(raw, pos, end, ls) && |ls| < n && out + |Wire(ls)| < NAME_CAPACITY
    decreases n
  {
    if n > 0 && pos < end {
      var ll := raw[pos];
      if ls == [] {
        assert raw[pos..pos + 1] == [raw[pos]];
      } else if 0 < ll < LABEL_CAPACITY && pos + 1 + ll <= end {
        var l := raw[pos + 1..pos + 1 + ll];
        ReadQnameNext(raw, pos, end, out, n, ls, l);
      } else {
        ReadQnameStuck(raw, pos, end, ls);
      }
    }
  }

  lemma ReadQnameStuck(raw: Frame, pos: nat, end: nat, ls: seq<Label>)
    requires pos < end <= |raw| && ls != []
    requires raw[pos] == 0 || raw[pos] >= LABEL_CAPACITY || pos + 1 + raw[pos] > end
    ensures !Spells(raw, pos, end, ls)
  {
    if Spells(raw, pos, end, ls) {
      assert ls == [ls[0]] + ls[1..];
      SpellsStep(raw, pos, end, ls[0], ls[1..]);
    }
  }

  lemma {:induction false} ReadQnameNext(raw: Frame, pos: nat, end: nat, out: nat, n: nat, ls: seq<Label>, l: Label)
    requires pos < end <= |raw| && out < NAME_CAPACITY && n > 0 && ls != []
    requires 0 < raw[pos] < LABEL_CAPACITY && pos + 1 + raw[pos] <= end
    requires l == raw[pos + 1..pos + 1 + raw[pos]]
    ensures ReadQname(raw, pos, end, out, n) == Some(ls) <==>
            Spells(raw, pos, end, ls) && |ls| < n && out + |Wire(ls)| < NAME_CAPACITY
    decreases n, 0
  {
    var rest := ls[1..];
    assert ls == [ls[0]] + rest;
    if LabelsOk(ls) { SpellsStep(raw, pos, end, ls[0], rest); }
    if out + 1 + |l| < NAME_CAPACITY {
      ReadQnameExact(raw, pos + 1 + |l|, end, out + 1 + |l|, n - 1, rest);
      if ReadQname(raw, pos, end, out, n) == Some(ls) {
        assert ls[0] == l && ReadQname(raw, pos + 1 + |l|, end, out + 1 + |l|, n - 1).value == rest;
        SpellsStep(raw, pos, end, l, rest);
      }
    }
  }

  /** The labels of the query name, as spelled in the frame. */
  function QueryName(raw: Frame): (r: Option<seq<Label>>) {
    var region := QueryRegion(raw);
    if region.None? then None
    else ReadQname(raw, region.value.0, region.value.1, 0, MAX_LABELS)
  }

  function LowerLabel(l: Label): (r: Label)
    ensures |r| == |l|
  {
    seq(|l|, i requires 0 <= i < |l| => LowerByte(l[i]))
  }

  function LowerLabels(ls: seq<Label>): (r: seq<Label>)
    ensures |r| == |ls|
    ensures forall i :: 0 <= i < |ls| ==> r[i] == LowerLabel(ls[i])
  {
    seq(|ls|, i requires 0 <= i < |ls| => LowerLabel(ls[i]))
  }

  lemma {:induction false} LowerKeepsSize(ls: seq<Label>)
    requires LabelsOk(ls)
    ensures LabelsOk(LowerLabels(ls)) && |Wire(LowerLabels(ls))| == |Wire(ls)|
  {
    if ls != [] {
      LowerKeepsSize(ls[1..]);
      assert LowerLabels(ls)[1..] == LowerLabels(ls[1..]);
    }
  }

  /** A parsed query name fits the fixed name. */
  lemma QueryNameFits(raw: Frame)
    requires QueryName(raw).Some?
    ensures var ls := QueryName(raw).value;
            |ls| < MAX_LABELS && Fits(ls) && Fits(LowerLabels(ls)) && |Wire(LowerLabels(ls))| == |Wire(ls)|
  {
    var region := QueryRegion(raw).value;
    ReadQnameExact(raw, region.0, region.1, 0, MAX_LABELS, QueryName(raw).value);
    LowerKeepsSize(QueryName(raw).value);
  }

  /** A name is parsed exactly when the query region spells at most 31 labels fitting 128 bytes. */
  lemma QueryNameExact(raw: Frame, ls: seq<Label>)
    ensures QueryName(raw) == Some(ls) <==>
            && QueryRegion(raw).Some? && |ls| <= 31
            && Spells(raw, QueryRegion(raw).value.0, QueryRegion(raw).value.1, ls)
            && |Wire(ls)| <= 127
  {
    if QueryRegion(raw).Some? {
      ReadQnameExact(raw, QueryRegion(raw).value.0, QueryRegion(raw).value.1, 0, MAX_LABELS, ls);
    }
  }

  /** What one turn of the label loop of `parse_query_name` does. */
  datatype Turn = Stop(result: Option<(Name, nat)>) | Go(pos: nat, name: Name, out: nat)

  function LabelTurn(raw: Frame, pos: nat, end: nat, name: Name, out: nat): (t: Turn)
    requires end <= |raw|
  {
    if pos >= end then Stop(None)
    else
      var ll := raw[pos];
      if ll == 0 then Stop(Some((if out < NAME_CAPACITY then name[out := 0] else name, out + 1)))
      else if ll >= LABEL_CAPACITY || out + 1 + ll >= NAME_CAPACITY || pos + 1 + ll > end then Stop(None)
      else Go(pos + 1 + ll, PutLabel(name, out, LowerLabel(raw[pos + 1..pos + 1 + ll])), out + 1 + ll)
  }

  /** At most `n` turns from a partly written name on. */
  function QnameLoop(raw: Frame, pos: nat, end: nat, name: Name, out: nat, n: nat): (r: Option<(Name, nat)>)
    requires end <= |raw|
    decreases n
  {
    if n == 0 then None
    else
      match LabelTurn(raw, pos, end, name, out)
      case Stop(result) => result
      case Go(pos', name', out') => QnameLoop(raw, pos', end, name', out', n - 1)
  }

  predicate ParsedAfter(done: seq<Label>, r: Option<(Name, nat)>, read: Option<seq<Label>>) {
    && (r.Some? <==> read.Some?)
    && (r.Some? ==> var ls := done + LowerLabels(read.value); Fits(ls) && r.value == (NameOf(ls), |Wire(ls)| + 1))
  }

  lemma ParsedAfterNothing(r: Option<(Name, nat)>, read: Option<seq<Label>>)
    requires ParsedAfter([], r, read)
    ensures Parsed(r, read)
  {
    if read.Some? { assert [] + LowerLabels(read.value) == LowerLabels(read.value); }
  }

  lemma {:induction false} QnameLoopReads(raw: Frame, pos: nat, end: nat, done: seq<Label>, name: Name, out: nat, n: nat)
    requires end <= |raw| && IsNameOf(name, out, done)
    ensures ParsedAfter(done, QnameLoop(raw, pos, end, name, out, n), ReadQname(raw, pos, end, out, n))
    decreases n
  {
    if n > 0 && pos < end {
      var ll := raw[pos];
      if ll == 0 {
        Terminated(done, name);
        assert done + LowerLabels([]) == done;
      } else if ll < LABEL_CAPACITY && out + 1 + ll < NAME_CAPACITY && pos + 1 + ll <= end {
        var part := raw[pos + 1..pos + 1 + ll];
        var name', out' := PutLabel(name, out, LowerLabel(part)), out + 1 + ll;
        ExtendName(done, LowerLabel(part));
        QnameLoopReads(raw, pos + 1 + ll, end, done + [LowerLabel(part)], name', out', n - 1);
        TurnGoes(raw, pos, end, name, out, part);
        ReadQnameStep(raw, pos, end, out, n, part);
        ParsedStep(done, part, QnameLoop(raw, pos + 1 + ll, end, name', out', n - 1),
                   ReadQname(raw, pos + 1 + ll, end, out', n - 1));
      }
    }
  }

  ghost predicate IsNameOf(name: Name, out: nat, done: seq<Label>) {
    Fits(done) && name == NameOf(done) && out == |Wire(done)|
  }

  lemma TurnGoes(raw: Frame, pos: nat, end: nat, name: Name, out: nat, part: Label)
    requires pos < end <= |raw| && 0 < raw[pos] < LABEL_CAPACITY
    requires out + 1 + raw[pos] < NAME_CAPACITY && pos + 1 + raw[pos] <= end
    requires part == raw[pos + 1..pos + 1 + raw[pos]]
    ensures LabelTurn(raw, pos, end, name, out) == Go(pos + 1 + raw[pos], PutLabel(name, out, LowerLabel(part)), out + 1 + raw[pos])
  {}

  lemma ReadQnameStep(raw: Frame, pos: nat, end: nat, out: nat, n: nat, part: Label)
    requires pos < end <= |raw| && n > 0 && 0 < raw[pos] < LABEL_CAPACITY
    requires out + 1 + raw[pos] < NAME_CAPACITY && pos + 1 + raw[pos] <= end
    requires part == raw[pos + 1..pos + 1 + raw[pos]]
    ensures ReadQname(raw, pos, end, out, n) == After([part], ReadQname(raw, pos + 1 + raw[pos], end, out + 1 + raw[pos], n - 1))
  {}

  lemma ParsedStep(done: seq<Label>, part: Label, r: Option<(Name, nat)>, rest: Option<seq<Label>>)
    requires ParsedAfter(done + [LowerLabel(part)], r, rest)
    ensures ParsedAfter(done, r, After([part], rest))
  {
    if rest.Some? { LowerAfter(done, part, rest.value); }
  }

  lemma LowerAfter(done: seq<Label>, part: Label, rest: seq<Label>)
    ensures done + [LowerLabel(part)] + LowerLabels(rest) == done + LowerLabels([part] + rest)
  {
    assert LowerLabels([part] + rest) == [LowerLabel(part)] + LowerLabels(rest);
  }

  /** The frame's name in lower case with its length, exactly when the frame spells one. */
  method ParseQueryName(raw: Frame) returns (r: Option<(Name, nat)>)
    ensures Parsed(r, QueryName(raw))
  {
    var region := QueryRegion(raw);
    if region.None? { return None; }
    r := ParseLabels(raw, region.value.0, region.value.1, MAX_LABELS);
  }

  predicate Parsed(r: Option<(Name, nat)>, read: Option<seq<Label>>) {
    && (r.Some? <==> read.Some?)
    && (r.Some? ==> var ls := LowerLabels(read.value); Fits(ls) && r.value == (NameOf(ls), |Wire(ls)| + 1))
  }

  lemma QnameLoopFromStart(raw: Frame, start: nat, end: nat, most: nat)
    requires end <= |raw|
    ensures Parsed(QnameLoop(raw, start, end, Zeros(NAME_CAPACITY), 0, most), ReadQname(raw, start, end, 0, most))
  {
    NothingWritten();
    QnameLoopReads(raw, start, end, [], Zeros(NAME_CAPACITY), 0, most);
    ParsedAfterNothing(QnameLoop(raw, start, end, Zeros(NAME_CAPACITY), 0, most), ReadQname(raw, start, end, 0, most));
  }

  lemma NothingWritten()
    ensures Fits([]) && |Wire([])| == 0 && NameOf([]) == Zeros(NAME_CAPACITY)
  {}

  /** At most `most` length bytes are read, the terminator's included. */
  method ParseLabels(raw: Frame, start: nat, end: nat, most: nat) returns (r: Option<(Name, nat)>)
    requires end <= |raw|
    ensures Parsed(r, ReadQname(raw, start, end, 0, most))
  {
    var pos: nat, out: nat := start, 0;
    var name: Name := Zeros(NAME_CAPACITY);
    ghost var read := QnameLoop(raw, start, end, name, 0, most);
    QnameLoopFromStart(raw, start, end, most);
    for i := 0 to most
      invariant read == QnameLoop(raw, pos, end, name, out, most - i)
    {
      var t := TakeTurn(raw, pos, end, name, out);
      if t.Stop? { return t.result; }
      pos, name, out := t.pos, t.name, t.out;
    }
    return None;
  }

  method TakeTurn(raw: Frame, pos: nat, end: nat, written: Name, out: nat) returns (t: Turn)
    requires end <= |raw|
    ensures t == LabelTurn(raw, pos, end, written, out)
  {
    var name := written;
    if pos >= end { return Stop(None); }
    var ll := raw[pos];
    if ll == 0 {
      if out < NAME_CAPACITY { name := name[out := 0]; }
      return Stop(Some((name, out + 1)));
    }
    if ll >= LABEL_CAPACITY { return Stop(None); }
    if out + 1 + ll >= NAME_CAPACITY { return Stop(None); }
    if pos + 1 + ll > end { return Stop(None); }
    name := WriteLabel(name, out, LowerLabel(raw[pos + 1..pos + 1 + ll]));
    return Go(pos + 1 + ll, name, out + 1 + ll);
  }

  // ----- the blacklist -----

  /** Some listed domain has exactly these labels. */
  ghost predicate ListedLabels(blacklist: set<Name>, ls: seq<Label>) {
    exists t: Text :: Encode(t).Ok? && Encode(t).value in blacklist && Split(Canonical(t)) == ls
  }

  /** Every stored name came from a domain text. */
  ghost predicate WellListed(blacklist: set<Name>) {
    forall n :: n in blacklist ==> exists t: Text :: Encode(t) == Ok(n)
  }

  lemma ListedExactly(blacklist: set<Name>, ls: seq<Label>)
    requires WellListed(blacklist) && Fits(ls)
    ensures NameOf(ls) in blacklist <==> ListedLabels(blacklist, ls)
  {
    if NameOf(ls) in blacklist {
      var t: Text :| Encode(t) == Ok(NameOf(ls));
      NameInjective(Split(Canonical(t)), ls);
    }
  }

  /** The query name or a parent domain of it is listed: a match at a label boundary. */
  ghost predicate SomeSuffixListed(blacklist: set<Name>, ls: seq<Label>) {
    exists k :: 0 <= k < |ls| && ListedLabels(blacklist, ls[k..])
  }

  /** The name left when the first `offset` bytes are dropped. */
  function Parent(name: Name, nameLen: nat, offset: nat): (n: Name)
    requires offset <= nameLen <= NAME_CAPACITY
  {
    name[offset..nameLen] + Zeros(NAME_CAPACITY - (nameLen - offset))
  }

  /** A proper parent of the name is stored, walking label by label from `offset`. */
  predicate ParentStored(stored: set<Name>, name: Name, nameLen: nat, offset: nat)
    requires nameLen <= NAME_CAPACITY
    decreases NAME_CAPACITY - offset
  {
    && offset < nameLen && name[offset] != 0
    && var next := offset + 1 + name[offset];
       && next < nameLen && name[next] != 0
       && (Parent(name, nameLen, next) in stored || ParentStored(stored, name, nameLen, next))
  }

  lemma WireSplit(ls: seq<Label>, k: nat)
    requires Fits(ls) && k <= |ls|
    ensures Fits(ls[..k]) && Fits(ls[k..]) && Wire(ls) == Wire(ls[..k]) + Wire(ls[k..])
  {
    var a, b := ls[..k], ls[k..];
    assert LabelsOk(a) && LabelsOk(b);
    WireAppend(a, b);
    assert a + b == ls;
    assert |Wire(ls)| == |Wire(a)| + |Wire(b)|;
  }

  lemma NameTail(a: seq<Byte>, b: seq<Byte>, pad: nat)
    requires |a| + |b| + pad == NAME_CAPACITY && pad >= 1
    ensures var name: Name := a + b + Zeros(pad);
            Parent(name, |a| + |b| + 1, |a|) == b + Zeros(NAME_CAPACITY - |b|)
            && name[|a|] == (if b == [] then 0 else b[0])
  {
    var name: Name := a + b + Zeros(pad);
    assert name[|a|..|a| + |b| + 1] == b + [0];
    assert b + [0] + Zeros(NAME_CAPACITY - |b| - 1) == b + Zeros(NAME_CAPACITY - |b|);
  }

  lemma NextOffset(ls: seq<Label>, k: nat)
    requires Fits(ls) && k < |ls|
    ensures Fits(ls[..k]) && Fits(ls[..k + 1]) && |Wire(ls[..k + 1])| == |Wire(ls[..k])| + 1 + |ls[k]|
  {
    WireSplit(ls, k);
    WireSplit(ls, k + 1);
    assert ls[..k + 1] == ls[..k] + [ls[k]];
    WireAppend(ls[..k], [ls[k]]);
    assert Wire([ls[k]]) == [|ls[k]|] + ls[k];
  }

  /** What stands in the name at the offset of label `k`. */
  lemma AtLabel(ls: seq<Label>, k: nat)
    requires Fits(ls) && k <= |ls|
    ensures Fits(ls[..k]) && Fits(ls[k..])
    ensures var off, len := |Wire(ls[..k])|, |Wire(ls)| + 1;
            var name := NameOf(ls);
            && off < len <= NAME_CAPACITY
            && name[off] == (if k == |ls| then 0 else |ls[k]|)
            && Parent(name, len, off) == NameOf(ls[k..])
  {
    WireSplit(ls, k);
    NameTail(Wire(ls[..k]), Wire(ls[k..]), NAME_CAPACITY - |Wire(ls)|);
  }

  /** One turn of the byte walk moves to the next label boundary. */
  lemma WalkStep(stored: set<Name>, ls: seq<Label>, k: nat)
    requires Fits(ls) && k < |ls|
    ensures Fits(ls[..k]) && Fits(ls[..k + 1]) && Fits(ls[k + 1..])
    ensures ParentStored(stored, NameOf(ls), |Wire(ls)| + 1, |Wire(ls[..k])|) <==>
            && k + 1 < |ls|
            && (NameOf(ls[k + 1..]) in stored
                || ParentStored(stored, NameOf(ls), |Wire(ls)| + 1, |Wire(ls[..k + 1])|))
  {
    AtLabel(ls, k);
    AtLabel(ls, k + 1);
    NextOffset(ls, k);
  }

  /** Some suffix from label `k` on is listed. */
  ghost predicate ListedFrom(stored: set<Name>, ls: seq<Label>, k: nat) {
    exists j :: k <= j < |ls| && ListedLabels(stored, ls[j..])
  }

  /** The byte walk visits exactly the label boundaries. */
  lemma {:induction false} WalkIsLabelwise(stored: set<Name>, ls: seq<Label>, k: nat)
    requires WellListed(stored) && Fits(ls) && k < |ls|
    ensures Fits(ls[..k])
    ensures ParentStored(stored, NameOf(ls), |Wire(ls)| + 1, |Wire(ls[..k])|) <==> ListedFrom(stored, ls, k + 1)
    decreases |ls| - k
  {
    WalkStep(stored, ls, k);
    if k + 1 < |ls| {
      ListedExactly(stored, ls[k + 1..]);
      WalkIsLabelwise(stored, ls, k + 1);
    }
  }

  /** Name lookup and walk together decide whether some label suffix is listed. */
  lemma WalkExact(stored: set<Name>, ls: seq<Label>)
    requires WellListed(stored) && Fits(ls)
    ensures NameOf(ls) in stored || ParentStored(stored, NameOf(ls), |Wire(ls)| + 1, 0)
            <==> SomeSuffixListed(stored, ls)
  {
    ListedExactly(stored, ls);
    assert ls[0..] == ls && Wire(ls[..0]) == [];
    if ls != [] { WalkIsLabelwise(stored, ls, 0); }
  }

  lemma WalkDecides(stored: set<Name>, ls: seq<Label>, name: Name, nameLen: nat)
    requires WellListed(stored) && Fits(ls) && name == NameOf(ls) && nameLen == |Wire(ls)| + 1
    ensures nameLen <= NAME_CAPACITY
    ensures name in stored || ParentStored(stored, name, nameLen, 0) <==> SomeSuffixListed(stored, ls)
  {
    WalkExact(stored, ls);
  }

  class DnsFilter {
    var blacklist: set<Name>

    ghost predicate Valid()
      reads this
    {
      WellListed(blacklist)
    }

    constructor ()
      ensures Valid() && blacklist == {}
    {
      blacklist := {};
    }

    method AddDomain(domain: Text) returns (r: Result<(), DnsError>)
      requires Valid()
      modifies this
      ensures Valid()
      ensures r.Ok? <==> Encode(domain).Ok?
      ensures r.Err? ==> r.error == Encode(domain).error
      ensures blacklist == old(blacklist) + (if r.Ok? then {Encode(domain).value} else {})
    {
      var name := DomainToWire(domain);
      if name.Err? { return Err(name.error); }
      blacklist := blacklist + {name.value};
      r := Ok(());
    }

    method RemoveDomain(domain: Text) returns (r: Result<(), DnsError>)
      requires Valid()
      modifies this
      ensures Valid()
      ensures r.Ok? <==> Encode(domain).Ok?
      ensures r.Err? ==> r.error == Encode(domain).error
      ensures blacklist == old(blacklist) - (if r.Ok? then {Encode(domain).value} else {})
    {
      var name := DomainToWire(domain);
      if name.Err? { return Err(name.error); }
      blacklist := blacklist - {name.value};
      r := Ok(());
    }

    /** The blacklist as canonical text, one for each stored name. */
    method ListDomains() returns (ds: seq<Text>)
      requires Valid()
      ensures IsListing(ds, blacklist)
    {
      ds := [];
      var rest := blacklist;
      ghost var done: set<Name> := {};
      SplitsEnds(blacklist);
      NothingListed();
      while rest != {}
        invariant Splits(blacklist, rest, done) && IsListing(ds, done)
        decreases |rest|
      {
        var n :| n in rest;
        SplitsNext(blacklist, rest, done, n);
        ds := ListOne(ds, n, done);
        rest, done := rest - {n}, done + {n};
      }
    }

    method ListOne(ds: seq<Text>, n: Name, ghost done: set<Name>) returns (more: seq<Text>)
      requires Valid() && n in blacklist && n !in done && IsListing(ds, done)
      ensures IsListing(more, done + {n})
    {
      var d := ListedText(blacklist, n);
      more := ds;
      if d.Some? {
        ListOneMore(ds, done, d.value, n);
        more := more + [d.value];
      }
    }

    /** `DnsFilterService::restore`: add every persisted domain, skipping those that do not encode. */
    method Restore(domains: seq<Text>)
      requires Valid()
      modifies this
      ensures Valid()
      ensures blacklist == old(blacklist) + Encoded(domains)
    {
      for i := 0 to |domains|
        invariant Valid()
        invariant blacklist == old(blacklist) + Encoded(domains[..i])
      {
        var _ := AddDomain(domains[i]);
        assert domains[..i + 1][..i] == domains[..i];
      }
      assert domains[..|domains|] == domains;
    }

    /** None where the source's slice would be out of range: a length beyond the array, with a
        first label followed by another. */
    method IsBlacklisted(name: Name, nameLen: nat) returns (b: Option<bool>)
      ensures b.None? <==> nameLen > NAME_CAPACITY && blacklist != {} && name !in blacklist && HasParent(name)
      ensures nameLen <= NAME_CAPACITY ==> b == Some(name in blacklist || ParentStored(blacklist, name, nameLen, 0))
      ensures nameLen > NAME_CAPACITY && b.Some? ==> b.value == (name in blacklist)
    {
      if blacklist == {} {
        if nameLen <= NAME_CAPACITY { NothingStored(name, nameLen, 0); }
        return Some(false);
      }
      if name in blacklist { return Some(true); }
      var offset: nat := 0;
      while true
        invariant nameLen <= NAME_CAPACITY ==>
          ParentStored(blacklist, name, nameLen, 0) == ParentStored(blacklist, name, nameLen, offset)
        invariant nameLen > NAME_CAPACITY ==> offset == 0
        decreases NAME_CAPACITY - offset
      {
        if offset >= nameLen || offset >= NAME_CAPACITY { break; }
        var lbl := name[offset];
        if lbl == 0 { break; }
        offset := offset + 1 + lbl;
        if offset >= nameLen || offset >= NAME_CAPACITY { break; }
        if name[offset] == 0 { break; }
        var remaining := nameLen - offset;
        var copied := if remaining < NAME_CAPACITY then remaining else NAME_CAPACITY;
        if offset + copied > NAME_CAPACITY { return None; }
        var parent: Name := name[offset..offset + copied] + Zeros(NAME_CAPACITY - copied);
        if parent in blacklist { return Some(true); }
      }
      return Some(false);
    }

    /** A frame is blacklisted exactly when it parses and a label suffix of its lower-cased
        QNAME is the label list of a listed domain. */
    method IsQueryBlacklisted(raw: Frame) returns (b: bool)
      requires Valid()
      ensures b <==> QueryName(raw).Some? && SomeSuffixListed(blacklist, LowerLabels(QueryName(raw).value))
    {
      var parsed := ParseQueryName(raw);
      b := IsParsedBlacklisted(parsed, QueryName(raw));
    }

    method IsParsedBlacklisted(parsed: Option<(Name, nat)>, ghost spelled: Option<seq<Label>>) returns (b: bool)
      requires Valid()
      requires Parsed(parsed, spelled)
      ensures b <==> spelled.Some? && SomeSuffixListed(blacklist, LowerLabels(spelled.value))
    {
      if parsed.None? { return false; }
      var found := IsBlacklisted(parsed.value.0, parsed.value.1);
      WalkDecides(blacklist, LowerLabels(spelled.value), parsed.value.0, parsed.value.1);
      b := found == Some(true);
    }
  }

  /** A second label follows the first inside the array. */
  predicate HasParent(name: Name) {
    name[0] != 0 && 1 + name[0] < NAME_CAPACITY && name[1 + name[0]] != 0
  }

  lemma {:induction false} NothingStored(name: Name, nameLen: nat, offset: nat)
    requires nameLen <= NAME_CAPACITY
    ensures !ParentStored({}, name, nameLen, offset)
    decreases NAME_CAPACITY - offset
  {
    if offset < nameLen && name[offset] != 0 {
      NothingStored(name, nameLen, offset + 1 + name[offset]);
    }
  }

  ghost predicate Splits(all: set<Name>, rest: set<Name>, done: set<Name>) {
    rest !! done && rest + done == all
  }

  lemma SplitsNext(all: set<Name>, rest: set<Name>, done: set<Name>, n: Name)
    requires Splits(all, rest, done) && n in rest
    ensures n in all && n !in done && Splits(all, rest - {n}, done + {n})
  {}

  lemma SplitsEnds(all: set<Name>)
    ensures Splits(all, all, {}) && forall done :: Splits(all, {}, done) ==> done == all
  {}

  lemma NothingListed()
    ensures IsListing([], {})
  {}

  /** The names that the encodable texts of `domains` stand for. */
  function Encoded(domains: seq<Text>): (names: set<Name>) {
    if domains == [] then {}
    else
      var last := domains[|domains| - 1];
      Encoded(domains[..|domains| - 1]) + (if Encode(last).Ok? then {Encode(last).value} else {})
  }

  lemma {:induction false} InEncoded(domains: seq<Text>, n: Name)
    ensures n in Encoded(domains) <==> exists d: Text :: d in domains && Encode(d) == Ok(n)
  {
    if domains != [] {
      var init, last := domains[..|domains| - 1], domains[|domains| - 1];
      assert domains == init + [last];
      InEncoded(init, n);
    }
  }

  /** `d` is the canonical text of `n`, and `n` the name of `d`. */
  predicate Entry(d: Text, n: Name) {
    Encode(d) == Ok(n) && Decode(n) == Some(d)
  }

  /** `wire_format_to_domain` on a stored name: it always has a text. */
  method ListedText(blacklist: set<Name>, n: Name) returns (d: Option<Text>)
    requires WellListed(blacklist) && n in blacklist
    ensures d.Some? && Entry(d.value, n)
  {
    ghost var t: Text :| Encode(t) == Ok(n);
    DecodeEncode(t);
    EncodeDecode(t);
    d := WireToDomain(n);
  }

  /** Canonical texts without repetition that stand for exactly `blacklist`. */
  ghost predicate IsListing(ds: seq<Text>, blacklist: set<Name>) {
    NoDuplicates(ds) && (forall i :: 0 <= i < |ds| ==> IsCanonical(ds[i])) && Encoded(ds) == blacklist
  }

  predicate IsCanonical(d: Text) {
    Encode(d).Ok? && Canonical(d) == d
  }

  lemma EncodedOneMore(ds: seq<Text>, d: Text, n: Name)
    requires Encode(d) == Ok(n)
    ensures Encoded(ds + [d]) == Encoded(ds) + {n}
  {
    assert (ds + [d])[..|ds|] == ds;
  }

  lemma EntryIsCanonical(d: Text, n: Name)
    requires Entry(d, n)
    ensures IsCanonical(d)
  {
    DecodeEncode(d);
  }

  lemma NotYetListed(ds: seq<Text>, d: Text, n: Name)
    requires Encode(d) == Ok(n) && n !in Encoded(ds)
    ensures d !in ds
  {
    InEncoded(ds, n);
  }

  /** Distinct names have distinct texts: listing is a bijection with the blacklist. */
  lemma ListOneMore(ds: seq<Text>, done: set<Name>, d: Text, n: Name)
    requires IsListing(ds, done) && n !in done && Entry(d, n)
    ensures IsListing(ds + [d], done + {n})
  {
    EncodedOneMore(ds, d, n);
    EntryIsCanonical(d, n);
    NotYetListed(ds, d, n);
    forall i | 0 <= i < |ds + [d]| ensures IsCanonical((ds + [d])[i]) {
      if i < |ds| { assert IsCanonical(ds[i]); }
    }
  }

  /** Restoring a listing, in any order, rebuilds exactly the blacklist it was taken from. */
  lemma RestoreRebuilds(ds: seq<Text>, persisted: seq<Text>, blacklist: set<Name>)
    requires IsListing(ds, blacklist) && forall d: Text :: d in persisted <==> d in ds
    ensures Encoded(persisted) == blacklist
  {
    forall n ensures n in Encoded(persisted) <==> n in Encoded(ds) {
      InEncoded(persisted, n);
      InEncoded(ds, n);
    }
  }

  /** Two listings of one blacklist hold the same texts. */
  lemma ListingIsUnique(a: seq<Text>, b: seq<Text>, blacklist: set<Name>, d: Text)
    requires IsListing(a, blacklist) && IsListing(b, blacklist) && d in a
    ensures d in b
  {
    var i :| 0 <= i < |a| && a[i] == d;
    InEncoded(a, Encode(d).value);
    InEncoded(b, Encode(d).value);
    var e: Text :| e in b && Encode(e) == Encode(d);
    var j :| 0 <= j < |b| && b[j] == e;
    EncodeInjective(d, e);
  }
}
