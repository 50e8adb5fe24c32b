// The per-source fixed-window counters of ingress-ebpf/src/action/rate_limit.rs and the order in
// which a packet meets them. One map entry per counter and source; no LRU eviction.

module KernelRateLimit {
  import opened Basics

  const U64: int := 0x1_0000_0000_0000_0000

  type u64 = x: int | 0 <= x < 0x1_0000_0000_0000_0000

  datatype Addr = V4(bits: nat) | V6(bits: nat)

  datatype Packet = Packet(src: Addr, protocol: Byte, tcpFlags: Byte, dstPort: nat)

  /** Each counter is its own map and its own drop reason. */
  datatype Counter = AnyPacket | SynOnly | AnyUdp | DnsQuery

  /** The five configured values; zero means unset. */
  datatype Config = Config(packetRate: u64, synRate: u64, udpRate: u64, dnsRate: u64, windowNs: u64)

  function GetConfig(value: u64, default: u64): (v: u64)
    requires default > 0
    ensures v > 0
  {
    if value > 0 then value else default
  }

  function Window(cfg: Config): (w: u64)
    ensures w > 0
  {
    GetConfig(cfg.windowNs, 1_000_000_000)
  }

  function Limit(cfg: Config, c: Counter): (l: u64)
    ensures l > 0
  {
    match c
    case AnyPacket => GetConfig(cfg.packetRate, 10000)
    case SynOnly => GetConfig(cfg.synRate, 100)
    case AnyUdp => GetConfig(cfg.udpRate, 5000)
    case DnsQuery => GetConfig(cfg.dnsRate, 200)
  }

  /** The packets a counter looks at. */
  predicate Applies(p: Packet, c: Counter) {
    match c
    case AnyPacket => true
    case SynOnly => p.protocol == 6 && p.tcpFlags / 2 % 2 == 1 && p.tcpFlags / 16 % 2 == 0
    case AnyUdp => p.protocol == 17
    case DnsQuery => p.protocol == 17 && p.dstPort == 53
  }

  function Rank(c: Counter): (n: nat) {
    match c
    case AnyPacket => 0
    case SynOnly => 1
    case AnyUdp => 2
    case DnsQuery => 3
  }

  datatype RateState = RateState(count: nat, windowStart: u64)

  /** `now - window_start` on u64. */
  function Elapsed(now: u64, start: u64): (d: u64) {
    if now >= start then now - start else now + U64 - start
  }

  /** New state and whether the packet is over the limit. */
  function Tick(st: Option<RateState>, now: u64, window: u64, limit: u64): (r: (RateState, bool)) {
    if st.None? || Elapsed(now, st.value.windowStart) >= window then (RateState(1, now), false)
    else (st.value.(count := st.value.count + 1), st.value.count + 1 > limit)
  }

  type Table = map<(Counter, Addr), RateState>

  function Get(m: Table, c: Counter, k: Addr): (st: Option<RateState>) {
    if (c, k) in m then Some(m[(c, k)]) else None
  }

  datatype Verdict = Verdict(table: Table, dropped: Option<Counter>)

  /** One counter, skipped once the packet is dropped. */
  function Stage(cfg: Config, v: Verdict, p: Packet, now: u64, c: Counter): (r: Verdict) {
    if v.dropped.Some? || !Applies(p, c) then v
    else
      var t := Tick(Get(v.table, c, p.src), now, Window(cfg), Limit(cfg, c));
      Verdict(v.table[(c, p.src) := t.0], if t.1 then Some(c) else None)
  }

  function Filter(cfg: Config, table: Table, p: Packet, now: u64): (r: Verdict) {
    var v1 := Stage(cfg, Verdict(table, None), p, now, AnyPacket);
    var v2 := Stage(cfg, v1, p, now, SynOnly);
    var v3 := Stage(cfg, v2, p, now, AnyUdp);
    Stage(cfg, v3, p, now, DnsQuery)
  }

  class RateLimiter {
    var table: Table

    constructor ()
      ensures table == map[]
    {
      table := map[];
    }

    method CheckRate(c: Counter, key: Addr, now: u64, window: u64, limit: u64) returns (over: bool)
      modifies this
      ensures var t := Tick(Get(old(table), c, key), now, window, limit);
              table == old(table)[(c, key) := t.0] && over == t.1
    {
      if (c, key) in table {
        var st := table[(c, key)];
        if Elapsed(now, st.windowStart) >= window {
          table := table[(c, key) := RateState(1, now)];
        } else {
          table := table[(c, key) := st.(count := st.count + 1)];
          if st.count + 1 > limit { return true; }
        }
      } else {
        table := table[(c, key) := RateState(1, now)];
      }
      return false;
    }

    method ShouldDrop(cfg: Config, p: Packet, now: u64) returns (dropped: Option<Counter>)
      modifies this
      ensures Verdict(table, dropped) == Filter(cfg, old(table), p, now)
    {
      var over := CheckRate(AnyPacket, p.src, now, Window(cfg), Limit(cfg, AnyPacket));
      if over { return Some(AnyPacket); }
      if Applies(p, SynOnly) {
        over := CheckRate(SynOnly, p.src, now, Window(cfg), Limit(cfg, SynOnly));
        if over { return Some(SynOnly); }
      }
      if Applies(p, AnyUdp) {
        over := CheckRate(AnyUdp, p.src, now, Window(cfg), Limit(cfg, AnyUdp));
        if over { return Some(AnyUdp); }
      }
      if Applies(p, DnsQuery) {
        over := CheckRate(DnsQuery, p.src, now, Window(cfg), Limit(cfg, DnsQuery));
        if over { return Some(DnsQuery); }
      }
      return None;
    }
  }

  // ----- runs -----

  datatype Arrival = Arrival(packet: Packet, now: u64)

  /** The packet meets counter `c` (no earlier one dropped it). */
  predicate Meets(p: Packet, c: Counter, dropped: Option<Counter>) {
    Applies(p, c) && (dropped.Some? ==> Rank(dropped.value) >= Rank(c))
  }

  predicate Passes(p: Packet, c: Counter, dropped: Option<Counter>) {
    Meets(p, c, dropped) && dropped != Some(c)
  }

  /** How many packets of source `k` pass counter `c` at times in [from, from + window). */
  function PassCount(cfg: Config, table: Table, arrivals: seq<Arrival>, c: Counter, k: Addr, from: u64): (n: nat)
    decreases |arrivals|
  {
    if arrivals == [] then 0
    else
      var a := arrivals[0];
      var v := Filter(cfg, table, a.packet, a.now);
      (if a.packet.src == k && from <= a.now < from + Window(cfg) && Passes(a.packet, c, v.dropped) then 1 else 0)
      + PassCount(cfg, v.table, arrivals[1..], c, k, from)
  }

  /** How many packets of source `k` and class `c` are not dropped at all in that interval. */
  function AcceptCount(cfg: Config, table: Table, arrivals: seq<Arrival>, c: Counter, k: Addr, from: u64): (n: nat)
    ensures n <= PassCount(cfg, table, arrivals, c, k, from)
    decreases |arrivals|
  {
    if arrivals == [] then 0
    else
      var a := arrivals[0];
      var v := Filter(cfg, table, a.packet, a.now);
      (if a.packet.src == k && from <= a.now < from + Window(cfg) && Applies(a.packet, c) && v.dropped.None? then 1 else 0)
      + AcceptCount(cfg, v.table, arrivals[1..], c, k, from)
  }

  predicate Ordered(arrivals: seq<Arrival>, clock: u64) {
    arrivals != [] ==> clock <= arrivals[0].now && Ordered(arrivals[1..], arrivals[0].now)
  }

  lemma StageTouches(cfg: Config, v: Verdict, p: Packet, now: u64, c: Counter, other: Counter, k: Addr)
    ensures var r := Stage(cfg, v, p, now, c);
            && (c != other || k != p.src || v.dropped.Some? || !Applies(p, c) ==> Get(r.table, other, k) == Get(v.table, other, k))
            && (v.dropped.Some? || !Applies(p, c) ==> r == v)
            && (v.dropped.None? && Applies(p, c) ==>
                  var t := Tick(Get(v.table, c, p.src), now, Window(cfg), Limit(cfg, c));
                  Get(r.table, c, p.src) == Some(t.0) && r.dropped == if t.1 then Some(c) else None)
  {}

  /** A packet moves a counter of its source exactly when it meets it, and of no other source. */
  lemma FilterTouches(cfg: Config, table: Table, p: Packet, now: u64, c: Counter, k: Addr)
    ensures var r := Filter(cfg, table, p, now);
            if k == p.src && Meets(p, c, r.dropped) then
              var t := Tick(Get(table, c, k), now, Window(cfg), Limit(cfg, c));
              Get(r.table, c, k) == Some(t.0) && (t.1 <==> r.dropped == Some(c))
            else Get(r.table, c, k) == Get(table, c, k)
  {
    var v0 := Verdict(table, None);
    var v1 := Stage(cfg, v0, p, now, AnyPacket);
    var v2 := Stage(cfg, v1, p, now, SynOnly);
    var v3 := Stage(cfg, v2, p, now, AnyUdp);
    StageTouches(cfg, v0, p, now, AnyPacket, c, k);
    StageTouches(cfg, v1, p, now, SynOnly, c, k);
    StageTouches(cfg, v2, p, now, AnyUdp, c, k);
    StageTouches(cfg, v3, p, now, DnsQuery, c, k);
  }

  /** What `n` counted passes in [from, from + window) say about the counter's state: they come
      from the current window and, if it began inside the interval, the one before; the packet
      that opens a window before the interval is not among them. */
  predicate Explained(st: Option<RateState>, n: nat, from: u64, window: u64, limit: u64, clock: u64) {
    && (clock < from ==> n == 0)
    && (st.None? ==> n == 0)
    && (st.Some? ==>
          && st.value.windowStart <= clock
          && 1 <= st.value.count
          && n <= (if st.value.windowStart < from then Min(st.value.count, limit) - 1
                   else if st.value.windowStart < from + window then limit - 1 + Min(st.value.count, limit)
                   else 2 * limit - 1))
  }

  lemma TickExplained(st: Option<RateState>, n: nat, from: u64, window: u64, limit: u64, clock: u64, now: u64)
    requires Explained(st, n, from, window, limit, clock) && clock <= now && limit > 0 && window > 0
    ensures var t := Tick(st, now, window, limit);
            Explained(Some(t.0), n + (if from <= now < from + window && !t.1 then 1 else 0), from, window, limit, now)
  {}

  /** Any half-open interval as long as the window has fewer than twice the limit of passes. */
  lemma {:induction false} TwiceTheLimit(
    cfg: Config, table: Table, arrivals: seq<Arrival>, c: Counter, k: Addr, from: u64, clock: u64, n: nat)
    requires Ordered(arrivals, clock)
    requires Explained(Get(table, c, k), n, from, Window(cfg), Limit(cfg, c), clock)
    ensures n + PassCount(cfg, table, arrivals, c, k, from) <= 2 * Limit(cfg, c) - 1
    decreases |arrivals|
  {
    if arrivals != [] {
      var a := arrivals[0];
      var v := Filter(cfg, table, a.packet, a.now);
      FilterTouches(cfg, table, a.packet, a.now, c, k);
      TickExplained(Get(table, c, k), n, from, Window(cfg), Limit(cfg, c), clock, a.now);
      var counted := if a.packet.src == k && from <= a.now < from + Window(cfg) && Passes(a.packet, c, v.dropped) then 1 else 0;
      TwiceTheLimit(cfg, v.table, arrivals[1..], c, k, from, a.now, n + counted);
    }
  }

  /** From an empty table on, for each counter, source and interval. */
  lemma RateIsBounded(cfg: Config, arrivals: seq<Arrival>, c: Counter, k: Addr, from: u64)
    requires Ordered(arrivals, 0)
    ensures PassCount(cfg, map[], arrivals, c, k, from) <= 2 * Limit(cfg, c) - 1
    ensures AcceptCount(cfg, map[], arrivals, c, k, from) <= 2 * Limit(cfg, c) - 1
  {
    TwiceTheLimit(cfg, map[], arrivals, c, k, from, 0, 0);
  }

  // ----- the bound is the best there is -----

  /** Every packet that meets `c` has met `e` before. */
  predicate Covers(e: Counter, c: Counter) {
    Rank(e) < Rank(c) && (e == AnyPacket || (e == AnyUdp && c == DnsQuery))
  }

  /** Some run passes 2 * limit - 1 packets of a source in a window's length. */
  ghost predicate ReachesBound(cfg: Config, c: Counter) {
    exists arrivals, k, from :: Ordered(arrivals, 0) && PassCount(cfg, map[], arrivals, c, k, from) == 2 * Limit(cfg, c) - 1
  }

  function ArrivalsAt(p: Packet, times: seq<u64>): (arrivals: seq<Arrival>) {
    if times == [] then [] else [Arrival(p, times[0])] + ArrivalsAt(p, times[1..])
  }

  /** A counter in this state passes packets at these times, all of them. */
  predicate PassesAll(st: Option<RateState>, times: seq<u64>, window: u64, limit: u64)
    decreases |times|
  {
    times != [] ==>
      var t := Tick(st, times[0], window, limit); !t.1 && PassesAll(Some(t.0), times[1..], window, limit)
  }

  function CountWithin(times: seq<u64>, from: u64, window: u64): (n: nat) {
    if times == [] then 0
    else (if from <= times[0] < from + window then 1 else 0) + CountWithin(times[1..], from, window)
  }

  /** The counters that the packet meets up to `c` are all in one state. */
  predicate InStep(table: Table, p: Packet, c: Counter, st: Option<RateState>) {
    forall e :: Applies(p, e) && Rank(e) <= Rank(c) ==> Get(table, e, p.src) == st
  }

  predicate LargestLimits(cfg: Config, c: Counter) {
    forall e :: Covers(e, c) ==> Limit(cfg, e) >= Limit(cfg, c)
  }

  lemma DroppedApplies(cfg: Config, table: Table, p: Packet, now: u64)
    ensures var dropped := Filter(cfg, table, p, now).dropped; dropped.Some? ==> Applies(p, dropped.value)
  {}

  lemma MetBefore(p: Packet, e: Counter, c: Counter)
    requires Applies(p, e) && Applies(p, c)
    ensures Rank(e) <= Rank(c) ==> e == c || Covers(e, c)
  {}

  /** A packet that `c` would pass is not dropped before it either, when the limits before it are no
      smaller, and the counters stay in step. */
  lemma TickTogether(cfg: Config, table: Table, p: Packet, now: u64, c: Counter, st: Option<RateState>)
    requires Applies(p, c) && LargestLimits(cfg, c) && InStep(table, p, c, st)
    requires !Tick(st, now, Window(cfg), Limit(cfg, c)).1
    ensures var v := Filter(cfg, table, p, now);
            Passes(p, c, v.dropped) && InStep(v.table, p, c, Some(Tick(st, now, Window(cfg), Limit(cfg, c)).0))
  {
    var v := Filter(cfg, table, p, now);
    DroppedApplies(cfg, table, p, now);
    if v.dropped.Some? {
      MetBefore(p, v.dropped.value, c);
      FilterTouches(cfg, table, p, now, v.dropped.value, p.src);
    }
    forall e | Applies(p, e) && Rank(e) <= Rank(c)
      ensures Get(v.table, e, p.src) == Some(Tick(st, now, Window(cfg), Limit(cfg, c)).0)
    {
      FilterTouches(cfg, table, p, now, e, p.src);
    }
  }

  lemma {:induction false} AllPass(cfg: Config, table: Table, p: Packet, times: seq<u64>, c: Counter, st: Option<RateState>, from: u64)
    requires Applies(p, c) && LargestLimits(cfg, c) && InStep(table, p, c, st)
    requires PassesAll(st, times, Window(cfg), Limit(cfg, c))
    ensures PassCount(cfg, table, ArrivalsAt(p, times), c, p.src, from) == CountWithin(times, from, Window(cfg))
    decreases |times|
  {
    if times != [] {
      TickTogether(cfg, table, p, times[0], c, st);
      assert ArrivalsAt(p, times)[1..] == ArrivalsAt(p, times[1..]);
      AllPass(cfg, Filter(cfg, table, p, times[0]).table, p, times[1..], c,
              Some(Tick(st, times[0], Window(cfg), Limit(cfg, c)).0), from);
    }
  }

  function Repeated(now: u64, n: nat): (times: seq<u64>) {
    if n == 0 then [] else [now] + Repeated(now, n - 1)
  }

  /** Packets at one instant inside a running window pass while its count stays within the limit. */
  lemma {:induction false} RepeatedPass(now: u64, n: nat, st: RateState, rest: seq<u64>, window: u64, limit: u64)
    requires st.windowStart <= now < st.windowStart + window && st.count + n <= limit
    requires PassesAll(Some(st.(count := st.count + n)), rest, window, limit)
    ensures PassesAll(Some(st), Repeated(now, n) + rest, window, limit)
    decreases n
  {
    if n == 0 {
      assert Repeated(now, 0) + rest == rest;
    } else {
      assert Repeated(now, n) + rest == [now] + (Repeated(now, n - 1) + rest);
      RepeatedPass(now, n - 1, st.(count := st.count + 1), rest, window, limit);
    }
  }

  lemma {:induction false} RepeatedCount(now: u64, n: nat, rest: seq<u64>, from: u64, window: u64)
    requires from <= now < from + window
    ensures CountWithin(Repeated(now, n) + rest, from, window) == n + CountWithin(rest, from, window)
    decreases n
  {
    if n == 0 {
      assert Repeated(now, 0) + rest == rest;
    } else {
      assert Repeated(now, n) + rest == [now] + (Repeated(now, n - 1) + rest);
      RepeatedCount(now, n - 1, rest, from, window);
    }
  }

  /** One packet opens a window, the rest of its limit comes at its last instant, and a full limit
      in the next. */
  function Bunched(window: u64, limit: u64): (times: seq<u64>)
    requires window > 0 && limit > 0
  {
    [0] + (Repeated(window - 1, limit - 1) + ([window] + Repeated(window, limit - 1)))
  }

  predicate Ascending(times: seq<u64>, clock: u64) {
    times != [] ==> clock <= times[0] && Ascending(times[1..], times[0])
  }

  lemma {:induction false} AscendingIsOrdered(p: Packet, times: seq<u64>, clock: u64)
    requires Ascending(times, clock)
    ensures Ordered(ArrivalsAt(p, times), clock)
    decreases |times|
  {
    if times != [] {
      AscendingIsOrdered(p, times[1..], times[0]);
      assert ArrivalsAt(p, times)[1..] == ArrivalsAt(p, times[1..]);
    }
  }

  lemma {:induction false} RepeatedAscends(now: u64, n: nat, rest: seq<u64>)
    requires Ascending(rest, now)
    ensures Ascending(Repeated(now, n) + rest, now)
    decreases n
  {
    if n == 0 {
      assert Repeated(now, 0) + rest == rest;
    } else {
      RepeatedAscends(now, n - 1, rest);
      assert Repeated(now, n) + rest == [now] + (Repeated(now, n - 1) + rest);
    }
  }

  lemma BunchedAscends(window: u64, limit: u64)
    requires window > 0 && limit > 0
    ensures Ascending(Bunched(window, limit), 0)
  {
    RepeatedAscends(window, limit - 1, []);
    assert Repeated(window, limit - 1) + [] == Repeated(window, limit - 1);
    var second := [window] + Repeated(window, limit - 1);
    assert second[1..] == Repeated(window, limit - 1);
    RepeatedAscends(window - 1, limit - 1, second);
    assert Bunched(window, limit)[1..] == Repeated(window - 1, limit - 1) + second;
  }

  lemma BunchedPass(window: u64, limit: u64)
    requires window > 0 && limit > 0
    ensures PassesAll(None, Bunched(window, limit), window, limit)
  {
    var second := [window] + Repeated(window, limit - 1);
    RepeatedPass(window, limit - 1, RateState(1, window), [], window, limit);
    assert Repeated(window, limit - 1) + [] == Repeated(window, limit - 1) && second[1..] == Repeated(window, limit - 1);
    RepeatedPass(window - 1, limit - 1, RateState(1, 0), second, window, limit);
    assert Bunched(window, limit)[1..] == Repeated(window - 1, limit - 1) + second;
  }

  lemma BunchedCount(window: u64, limit: u64)
    requires window > 1 && limit > 0
    ensures CountWithin(Bunched(window, limit), window - 1, window) == 2 * limit - 1
  {
    var second := [window] + Repeated(window, limit - 1);
    RepeatedCount(window, limit - 1, [], window - 1, window);
    assert Repeated(window, limit - 1) + [] == Repeated(window, limit - 1) && second[1..] == Repeated(window, limit - 1);
    RepeatedCount(window - 1, limit - 1, second, window - 1, window);
    assert Bunched(window, limit)[1..] == Repeated(window - 1, limit - 1) + second;
  }

  /** For every counter whose limit is not above those met before it, every limit and every window
      of more than one nanosecond, some run reaches the bound. */
  lemma BoundIsReached(cfg: Config, c: Counter, p: Packet)
    requires Window(cfg) > 1 && Applies(p, c) && LargestLimits(cfg, c)
    ensures var arrivals := ArrivalsAt(p, Bunched(Window(cfg), Limit(cfg, c)));
            Ordered(arrivals, 0) && PassCount(cfg, map[], arrivals, c, p.src, Window(cfg) - 1) == 2 * Limit(cfg, c) - 1
  {
    var times := Bunched(Window(cfg), Limit(cfg, c));
    BunchedAscends(Window(cfg), Limit(cfg, c));
    AscendingIsOrdered(p, times, 0);
    BunchedPass(Window(cfg), Limit(cfg, c));
    BunchedCount(Window(cfg), Limit(cfg, c));
    AllPass(cfg, map[], p, times, c, None, Window(cfg) - 1);
  }

  /** What passes a counter has passed those before it. */
  lemma {:induction false} PassedBefore(cfg: Config, table: Table, arrivals: seq<Arrival>, e: Counter, c: Counter, k: Addr, from: u64)
    requires Covers(e, c)
    ensures PassCount(cfg, table, arrivals, c, k, from) <= PassCount(cfg, table, arrivals, e, k, from)
    decreases |arrivals|
  {
    if arrivals != [] {
      var a := arrivals[0];
      PassedBefore(cfg, Filter(cfg, table, a.packet, a.now).table, arrivals[1..], e, c, k, from);
    }
  }

  function SamplePacket(c: Counter): (p: Packet)
    ensures Applies(p, c)
  {
    match c
    case AnyPacket => Packet(V4(1), 6, 0, 80)
    case SynOnly => Packet(V4(1), 6, 2, 80)
    case AnyUdp => Packet(V4(1), 17, 0, 80)
    case DnsQuery => Packet(V4(1), 17, 0, 53)
  }

  /** A counter's bound is reached exactly when no counter met before it has a smaller limit. */
  lemma BoundIsReachedExactly(cfg: Config, c: Counter)
    requires Window(cfg) > 1
    ensures ReachesBound(cfg, c) <==> LargestLimits(cfg, c)
  {
    if LargestLimits(cfg, c) {
      BoundIsReached(cfg, c, SamplePacket(c));
    } else {
      var e :| Covers(e, c) && Limit(cfg, e) < Limit(cfg, c);
      forall arrivals, k, from | Ordered(arrivals, 0)
        ensures PassCount(cfg, map[], arrivals, c, k, from) < 2 * Limit(cfg, c) - 1
      {
        RateIsBounded(cfg, arrivals, e, k, from);
        PassedBefore(cfg, map[], arrivals, e, c, k, from);
      }
    }
  }

  /** What `n` passes at the instant `from` say about the counter when windows last one nanosecond. */
  predicate ExplainedInstant(st: Option<RateState>, n: nat, from: u64, limit: u64, clock: u64) {
    && (clock < from ==> n == 0)
    && (st.None? ==> n == 0)
    && (st.Some? ==>
          && st.value.windowStart <= clock && 1 <= st.value.count
          && n <= (if st.value.windowStart < from then 0
                   else if st.value.windowStart == from then Min(st.value.count, limit)
                   else limit))
  }

  /** With a window of one nanosecond the bound is the limit itself. */
  lemma {:induction false} OneInstantWindow(
    cfg: Config, table: Table, arrivals: seq<Arrival>, c: Counter, k: Addr, from: u64, clock: u64, n: nat)
    requires Window(cfg) == 1 && Ordered(arrivals, clock)
    requires ExplainedInstant(Get(table, c, k), n, from, Limit(cfg, c), clock)
    ensures n + PassCount(cfg, table, arrivals, c, k, from) <= Limit(cfg, c)
    decreases |arrivals|
  {
    if arrivals != [] {
      var a := arrivals[0];
      var v := Filter(cfg, table, a.packet, a.now);
      FilterTouches(cfg, table, a.packet, a.now, c, k);
      var counted := if a.packet.src == k && from <= a.now < from + 1 && Passes(a.packet, c, v.dropped) then 1 else 0;
      OneInstantWindow(cfg, v.table, arrivals[1..], c, k, from, a.now, n + counted);
    }
  }

  // ----- the configured rates, by name -----

  function OrDefault(value: u64, default: u64): (v: u64) {
    if value == 0 then default else value
  }

  /** In any window's length a source passes fewer than twice each configured rate: of all packets,
      of connection attempts, of UDP and of DNS queries; an unset rate has its default. */
  lemma RatesAreKept(cfg: Config, arrivals: seq<Arrival>, k: Addr, from: u64)
    requires Ordered(arrivals, 0)
    ensures Window(cfg) == OrDefault(cfg.windowNs, 1_000_000_000)
    ensures PassCount(cfg, map[], arrivals, AnyPacket, k, from) < 2 * OrDefault(cfg.packetRate, 10000)
    ensures PassCount(cfg, map[], arrivals, SynOnly, k, from) < 2 * OrDefault(cfg.synRate, 100)
    ensures PassCount(cfg, map[], arrivals, AnyUdp, k, from) < 2 * OrDefault(cfg.udpRate, 5000)
    ensures PassCount(cfg, map[], arrivals, DnsQuery, k, from) < 2 * OrDefault(cfg.dnsRate, 200)
  {
    RateIsBounded(cfg, arrivals, AnyPacket, k, from);
    RateIsBounded(cfg, arrivals, SynOnly, k, from);
    RateIsBounded(cfg, arrivals, AnyUdp, k, from);
    RateIsBounded(cfg, arrivals, DnsQuery, k, from);
  }

  /** The configured rate of a class of packets. */
  function RateOf(cfg: Config, c: Counter): (rate: u64) {
    match c
    case AnyPacket => OrDefault(cfg.packetRate, 10000)
    case SynOnly => OrDefault(cfg.synRate, 100)
    case AnyUdp => OrDefault(cfg.udpRate, 5000)
    case DnsQuery => OrDefault(cfg.dnsRate, 200)
  }

  lemma LimitIsRate(cfg: Config, c: Counter)
    ensures Limit(cfg, c) == RateOf(cfg, c)
  {}

  /** With no smaller rate before it, a counter grants a whole configured rate at once. */
  lemma RateIsGranted(cfg: Config, c: Counter, p: Packet, now: u64, rate: u64)
    requires Applies(p, c) && LargestLimits(cfg, c) && rate == RateOf(cfg, c)
    ensures rate > 0 && PassCount(cfg, map[], ArrivalsAt(p, [now] + Repeated(now, rate - 1)), c, p.src, now) == rate
  {
    LimitIsRate(cfg, c);
    GrantedAt(cfg, c, p, now, rate);
  }

  lemma GrantedAt(cfg: Config, c: Counter, p: Packet, now: u64, rate: u64)
    requires Applies(p, c) && LargestLimits(cfg, c) && rate == Limit(cfg, c)
    ensures PassCount(cfg, map[], ArrivalsAt(p, [now] + Repeated(now, rate - 1)), c, p.src, now) == rate
  {
    var times := [now] + Repeated(now, rate - 1);
    AtOnce(now, rate, Window(cfg));
    AllPass(cfg, map[], p, times, c, None, now);
  }

  lemma AtOnce(now: u64, rate: u64, window: u64)
    requires rate > 0 && window > 0
    ensures var times := [now] + Repeated(now, rate - 1);
            PassesAll(None, times, window, rate) && CountWithin(times, now, window) == rate
  {
    var times := [now] + Repeated(now, rate - 1);
    RepeatedPass(now, rate - 1, RateState(1, now), [], window, rate);
    RepeatedCount(now, rate - 1, [], now, window);
    assert Repeated(now, rate - 1) + [] == Repeated(now, rate - 1) && times[1..] == Repeated(now, rate - 1);
  }

  /** A connection attempt is TCP with the SYN bit and without the ACK bit. */
  lemma SynOnlyBits(p: Packet, high: nat, ack: nat, mid: nat, syn: nat, fin: nat)
    requires high < 8 && ack < 2 && mid < 4 && syn < 2 && fin < 2
    requires p.tcpFlags == 32 * high + 16 * ack + 4 * mid + 2 * syn + fin
    ensures Applies(p, SynOnly) <==> p.protocol == 6 && syn == 1 && ack == 0
  {
    assert p.tcpFlags / 2 == 16 * high + 8 * ack + 2 * mid + syn;
    assert p.tcpFlags / 16 == 2 * high + ack;
  }
}
