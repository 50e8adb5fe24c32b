// The three sliding-window detectors of net-guardia/src/core/correlation (scan.rs, botnet.rs,
// lateral.rs) and their shared cleanup (correlation_cleanup.rs). They differ in what they key
// and count; the window and cooldown machine is one. Instants are integers.

module Correlation {
  import opened Basics

  type Ip = string

  datatype FlowObservation = FlowObservation(srcIp: Ip, dstIp: Ip, dstPort: nat, protocol: nat)

  datatype Kind = Scan | Botnet | Lateral

  datatype Key = BySource(ip: Ip) | ByService(dstIp: Ip, protocol: nat, port: nat)

  datatype Item = Port(port: nat) | Host(ip: Ip)

  /** What a detector keys and counts; the lateral one skips flows that are not internal. */
  function Projection(kind: Kind, internal: Ip -> bool, o: FlowObservation): (r: Option<(Key, Item)>) {
    match kind
    case Scan => Some((BySource(o.srcIp), Port(o.dstPort)))
    case Botnet => Some((ByService(o.dstIp, o.protocol, o.dstPort), Host(o.srcIp)))
    case Lateral => if internal(o.srcIp) && internal(o.dstIp) then Some((BySource(o.srcIp), Host(o.dstIp))) else None
  }

  datatype Params = Params(window: nat, threshold: nat, maxTracked: nat) {
    /** Distinct items an alert takes: a threshold of zero acts as one. */
    function Needed(): (n: nat)
      ensures n >= 1
    {
      if threshold == 0 then 1 else threshold
    }
  }

  datatype Entry = Entry(items: set<Item>, windowStart: int, lastAlerted: Option<int>)

  type State = map<Key, Entry>

  predicate CoolingDown(p: Params, e: Entry, now: int) {
    e.lastAlerted.Some? && Since(now, e.lastAlerted.value) < p.window
  }

  /** The entry as `process` finds it: fresh, restarted, or running. */
  function Opened(p: Params, e: Option<Entry>, now: int): (r: Entry) {
    if e.None? then Entry({}, now, None)
    else if Since(now, e.value.windowStart) >= p.window then Entry({}, now, e.value.lastAlerted)
    else e.value
  }

  /** The entry after an observation, and the distinct items if it raises an alert. */
  function Observed(p: Params, e: Option<Entry>, item: Item, now: int): (r: (Entry, Option<set<Item>>)) {
    var open := Opened(p, e, now);
    var items := open.items + {item};
    if |items| < p.threshold then (open.(items := items), None)
    else if CoolingDown(p, open, now) then (Entry({}, now, open.lastAlerted), None)
    else (Entry({}, now, Some(now)), Some(items))
  }

  function Find(s: State, k: Key): (e: Option<Entry>) {
    if k in s then Some(s[k]) else None
  }

  function Unexpired(p: Params, s: State, now: int): (r: State) {
    map k | k in s && Since(now, s[k].windowStart) < p.window :: s[k]
  }

  /** Cleanup drops expired entries, then as many others as exceed the cap. */
  ghost predicate EvictsExcess(p: Params, s: State, now: int, evicted: set<Key>) {
    var kept := Unexpired(p, s, now);
    evicted <= kept.Keys && |evicted| == if |kept| > p.maxTracked then |kept| - p.maxTracked else 0
  }

  class Detector {
    const kind: Kind
    const internal: Ip -> bool
    const params: Params
    var state: State

    constructor (kind: Kind, internal: Ip -> bool, params: Params)
      ensures this.kind == kind && this.internal == internal && this.params == params && state == map[]
    {
      this.kind, this.internal, this.params := kind, internal, params;
      state := map[];
    }

    /** The reported number of distinct items, when the observation raises an alert. */
    method Process(o: FlowObservation, now: int) returns (alert: Option<nat>)
      modifies this
      ensures match Projection(kind, internal, o)
              case None => state == old(state) && alert.None?
              case Some((k, item)) =>
                var r := Observed(params, Find(old(state), k), item, now);
                && state == old(state)[k := r.0]
                && alert == if r.1.Some? then Some(|r.1.value|) else None
    {
      var projected := Projection(kind, internal, o);
      if projected.None? { return None; }
      var k, item := projected.value.0, projected.value.1;
      var e := if k in state then state[k] else Entry({}, now, None);
      if Since(now, e.windowStart) >= params.window {
        e := Entry({}, now, e.lastAlerted);
      }
      e := e.(items := e.items + {item});
      if |e.items| >= params.threshold {
        if e.lastAlerted.Some? && Since(now, e.lastAlerted.value) < params.window {
          e := Entry({}, now, e.lastAlerted);
          state := state[k := e];
          return None;
        }
        alert := Some(|e.items|);
        e := Entry({}, now, Some(now));
        state := state[k := e];
        return;
      }
      state := state[k := e];
      alert := None;
    }

    method Cleanup(now: int) returns (removed: nat, ghost evicted: set<Key>)
      modifies this
      ensures EvictsExcess(params, old(state), now, evicted)
      ensures state == Unexpired(params, old(state), now) - evicted
      ensures removed == |old(state)| - |state|
    {
      var before := |state|;
      KeepsFewer(state, Unexpired(params, state, now));
      state := Unexpired(params, state, now);
      ghost var kept := state;
      evicted := {};
      var excess: nat := if |state| > params.maxTracked then |state| - params.maxTracked else 0;
      while excess > 0
        invariant state == kept - evicted && evicted <= kept.Keys
        invariant |state| == |kept| - |evicted|
        invariant |evicted| + excess == if |kept| > params.maxTracked then |kept| - params.maxTracked else 0
      {
        assert |state| > 0 && state.Keys != {};
        var k :| k in state;
        RemoveOne(state, k);
        state := state - {k};
        evicted := evicted + {k};
        excess := excess - 1;
      }
      removed := before - |state|;
    }
  }

  lemma RemoveOne(s: State, k: Key)
    requires k in s
    ensures |s - {k}| == |s| - 1
  {
    assert (s - {k}).Keys == s.Keys - {k};
    assert s.Keys == (s.Keys - {k}) + {k};
  }

  lemma KeepsFewer(s: State, kept: State)
    requires kept.Keys <= s.Keys
    ensures |kept| <= |s|
  {
    var gone := s.Keys - kept.Keys;
    assert s.Keys == kept.Keys + gone;
    assert |s.Keys| == |kept.Keys| + |gone|;
  }

  // ----- runs -----

  datatype Step = Observe(key: Key, item: Item, now: int) | Clean(now: int, evicted: set<Key>)

  datatype Alert = Alert(key: Key, now: int, items: set<Item>)

  /** `seen` logs the observations, `alerts` the alerts raised. */
  datatype World = World(state: State, seen: seq<Step>, alerts: seq<Alert>)

  function Next(p: Params, w: World, s: Step): (r: World) {
    match s
    case Observe(k, item, now) =>
      var r := Observed(p, Find(w.state, k), item, now);
      World(w.state[k := r.0], w.seen + [s], if r.1.Some? then w.alerts + [Alert(k, now, r.1.value)] else w.alerts)
    case Clean(now, evicted) => w.(state := Unexpired(p, w.state, now) - evicted)
  }

  function Run(p: Params, w: World, steps: seq<Step>): (r: World)
    decreases |steps|
  {
    if steps == [] then w else Run(p, Next(p, w, steps[0]), steps[1..])
  }

  /** Time moves forward and no eviction drops an entry that is still cooling down. */
  ghost predicate Orderly(p: Params, w: World, steps: seq<Step>, clock: int)
    decreases |steps|
  {
    steps != [] ==>
      && clock <= steps[0].now
      && (steps[0].Clean? ==> EvictsNoCooldown(p, w.state, steps[0]))
      && Orderly(p, Next(p, w, steps[0]), steps[1..], steps[0].now)
  }

  ghost predicate EvictsNoCooldown(p: Params, s: State, step: Step)
    requires step.Clean?
  {
    forall k :: k in step.evicted && k in s ==> !CoolingDown(p, s[k], step.now)
  }

  /** Some observation of `item` for `k` was logged at a time from `from` to `to`. */
  ghost predicate SeenIn(seen: seq<Step>, k: Key, item: Item, from: int, to: int) {
    exists i :: 0 <= i < |seen| && seen[i].Observe? && seen[i].key == k && seen[i].item == item && from <= seen[i].now <= to
  }

  lemma SeenLater(seen: seq<Step>, s: Step, k: Key, item: Item, from: int, to: int, later: int)
    requires SeenIn(seen, k, item, from, to) && to <= later
    ensures SeenIn(seen + [s], k, item, from, to) && SeenIn(seen, k, item, from, later)
  {
    var i :| 0 <= i < |seen| && seen[i].Observe? && seen[i].key == k && seen[i].item == item && from <= seen[i].now <= to;
    assert (seen + [s])[i] == seen[i];
  }

  ghost predicate EntryOk(p: Params, w: World, k: Key, clock: int)
    requires k in w.state
  {
    var e := w.state[k];
    && e.windowStart <= clock && |e.items| < p.Needed()
    && (e.lastAlerted.Some? ==> e.lastAlerted.value <= e.windowStart && Logged(w.alerts, k, e.lastAlerted.value))
    && forall item :: item in e.items ==> SeenIn(w.seen, k, item, e.windowStart, clock)
  }

  /** An alert of `k` at time `t` was raised. */
  ghost predicate Logged(alerts: seq<Alert>, k: Key, t: int) {
    exists i :: 0 <= i < |alerts| && alerts[i].key == k && alerts[i].now == t
  }

  lemma LoggedLater(alerts: seq<Alert>, more: seq<Alert>, k: Key, t: int)
    requires Logged(alerts, k, t)
    ensures Logged(alerts + more, k, t)
  {
    var i :| 0 <= i < |alerts| && alerts[i].key == k && alerts[i].now == t;
    assert (alerts + more)[i] == alerts[i];
  }

  /** Past alerts of a key are remembered by its entry or are a full window old. */
  ghost predicate Remembered(p: Params, w: World, a: Alert, clock: int) {
    || a.now + p.window <= clock
    || (a.key in w.state && w.state[a.key].lastAlerted.Some? && a.now <= w.state[a.key].lastAlerted.value)
  }

  ghost predicate Witnessed(p: Params, seen: seq<Step>, a: Alert) {
    |a.items| == p.Needed() && forall item :: item in a.items ==> SeenIn(seen, a.key, item, a.now - p.window + 1, a.now)
  }

  ghost predicate Spaced(p: Params, alerts: seq<Alert>) {
    forall i, j :: 0 <= i < j < |alerts| && alerts[i].key == alerts[j].key ==> alerts[j].now >= alerts[i].now + p.window
  }

  ghost predicate Inv(p: Params, w: World, clock: int) {
    && (forall k :: k in w.state ==> EntryOk(p, w, k, clock))
    && (forall i :: 0 <= i < |w.alerts| ==> Remembered(p, w, w.alerts[i], clock))
    && (forall i :: 0 <= i < |w.alerts| ==> Witnessed(p, w.seen, w.alerts[i]))
    && Spaced(p, w.alerts)
  }

  /** Everything logged stays witnessed as the log grows. */
  lemma WitnessedLater(p: Params, seen: seq<Step>, s: Step, a: Alert)
    requires Witnessed(p, seen, a)
    ensures Witnessed(p, seen + [s], a)
  {
    forall item | item in a.items
      ensures SeenIn(seen + [s], a.key, item, a.now - p.window + 1, a.now)
    {
      SeenLater(seen, s, a.key, item, a.now - p.window + 1, a.now, a.now);
    }
  }

  /** The items open for a key, with the new one, were all seen since the window began. */
  lemma OpenItemsSeen(p: Params, w: World, k: Key, item: Item, now: int, clock: int)
    requires p.window > 0 && clock <= now && (k in w.state ==> EntryOk(p, w, k, clock))
    ensures var open := Opened(p, Find(w.state, k), now);
            && now - p.window < open.windowStart <= now && |open.items| < p.Needed()
            && (open.lastAlerted.Some? ==> open.lastAlerted.value <= open.windowStart)
            && forall i :: i in open.items + {item} ==>
                 SeenIn(w.seen + [Observe(k, item, now)], k, i, open.windowStart, now)
  {
    var open := Opened(p, Find(w.state, k), now);
    var s := Observe(k, item, now);
    assert (w.seen + [s])[|w.seen|] == s;
    forall i | i in open.items
      ensures SeenIn(w.seen + [s], k, i, open.windowStart, now)
    {
      SeenLater(w.seen, s, k, i, open.windowStart, clock, now);
      SeenLater(w.seen + [s], s, k, i, open.windowStart, clock, now);
    }
  }

  lemma SeenWider(seen: seq<Step>, k: Key, item: Item, from: int, earlier: int, to: int)
    requires SeenIn(seen, k, item, from, to) && earlier <= from
    ensures SeenIn(seen, k, item, earlier, to)
  {}

  lemma ObserveEntries(p: Params, w: World, s: Step, clock: int)
    requires p.window > 0 && Inv(p, w, clock) && s.Observe? && clock <= s.now
    ensures var r := Next(p, w, s); forall k :: k in r.state ==> EntryOk(p, r, k, s.now)
  {
    var r := Next(p, w, s);
    OpenItemsSeen(p, w, s.key, s.item, s.now, clock);
    ObservedLog(p, w, s, clock);
    forall k | k in r.state
      ensures EntryOk(p, r, k, s.now)
    {
      if k != s.key {
        assert EntryOk(p, w, k, clock);
        forall item | item in r.state[k].items
          ensures SeenIn(r.seen, k, item, r.state[k].windowStart, s.now)
        {
          SeenLater(w.seen, s, k, item, r.state[k].windowStart, clock, s.now);
          SeenLater(r.seen, s, k, item, r.state[k].windowStart, clock, s.now);
        }
      }
    }
  }

  /** Every remembered alert is in the log, the one just raised included. */
  lemma ObservedLog(p: Params, w: World, s: Step, clock: int)
    requires Inv(p, w, clock) && s.Observe?
    ensures var r := Next(p, w, s);
            forall k :: k in r.state && r.state[k].lastAlerted.Some? ==> Logged(r.alerts, k, r.state[k].lastAlerted.value)
  {
    var r := Next(p, w, s);
    forall k | k in r.state && r.state[k].lastAlerted.Some?
      ensures Logged(r.alerts, k, r.state[k].lastAlerted.value)
    {
      if k in w.state && w.state[k].lastAlerted == r.state[k].lastAlerted {
        assert EntryOk(p, w, k, clock);
        LoggedLater(w.alerts, r.alerts[|w.alerts|..], k, r.state[k].lastAlerted.value);
        assert w.alerts + r.alerts[|w.alerts|..] == r.alerts;
      } else {
        assert r.alerts[|w.alerts|] == Alert(k, s.now, r.alerts[|w.alerts|].items);
      }
    }
  }

  lemma AddOne(a: set<Item>, item: Item)
    ensures |a + {item}| <= |a| + 1
  {
    if item in a { assert a + {item} == a; }
  }

  /** What an observation does to its key: a new alert comes a window after the last one kept. */
  lemma ObservedKey(p: Params, w: World, s: Step, clock: int)
    requires p.window > 0 && Inv(p, w, clock) && s.Observe? && clock <= s.now
    ensures var r := Next(p, w, s);
            var last := r.state[s.key].lastAlerted;
            && (r.alerts == w.alerts ==>
                  last == if s.key in w.state then w.state[s.key].lastAlerted else None)
            && (r.alerts != w.alerts ==>
                  && r.alerts == w.alerts + [Alert(s.key, s.now, Opened(p, Find(w.state, s.key), s.now).items + {s.item})]
                  && last == Some(s.now)
                  && |r.alerts[|w.alerts|].items| >= p.Needed()
                  && (s.key in w.state && w.state[s.key].lastAlerted.Some? ==>
                        w.state[s.key].lastAlerted.value + p.window <= s.now))
  {
    var open := Opened(p, Find(w.state, s.key), s.now);
    assert |open.items + {s.item}| >= 1 by { assert s.item in open.items + {s.item}; }
    if s.key in w.state { assert EntryOk(p, w, s.key, clock); }
  }

  lemma ObserveRemembers(p: Params, w: World, s: Step, clock: int)
    requires p.window > 0 && Inv(p, w, clock) && s.Observe? && clock <= s.now
    ensures var r := Next(p, w, s);
            (forall i :: 0 <= i < |r.alerts| ==> Remembered(p, r, r.alerts[i], s.now)) && Spaced(p, r.alerts)
  {
    var r := Next(p, w, s);
    ObservedKey(p, w, s, clock);
    forall i | 0 <= i < |w.alerts|
      ensures Remembered(p, r, w.alerts[i], s.now)
      ensures r.alerts != w.alerts && w.alerts[i].key == s.key ==> w.alerts[i].now + p.window <= s.now
    {
      var a := w.alerts[i];
      assert Remembered(p, w, a, clock);
      if a.key != s.key && a.key in w.state { assert r.state[a.key] == w.state[a.key]; }
    }
  }

  /** The items of a new alert are just enough and were seen within the window. */
  lemma NewAlertWitnessed(p: Params, w: World, s: Step, clock: int)
    requires p.window > 0 && Inv(p, w, clock) && s.Observe? && clock <= s.now
    requires Next(p, w, s).alerts != w.alerts
    ensures var r := Next(p, w, s); |r.alerts| == |w.alerts| + 1 && Witnessed(p, r.seen, r.alerts[|w.alerts|])
  {
    var r := Next(p, w, s);
    ObservedKey(p, w, s, clock);
    var open := Opened(p, Find(w.state, s.key), s.now);
    var a := r.alerts[|w.alerts|];
    OpenItemsSeen(p, w, s.key, s.item, s.now, clock);
    AddOne(open.items, s.item);
    forall item | item in a.items
      ensures SeenIn(r.seen, a.key, item, a.now - p.window + 1, a.now)
    {
      SeenWider(r.seen, a.key, item, open.windowStart, a.now - p.window + 1, a.now);
    }
  }

  lemma ObserveWitnesses(p: Params, w: World, s: Step, clock: int)
    requires p.window > 0 && Inv(p, w, clock) && s.Observe? && clock <= s.now
    ensures var r := Next(p, w, s); forall i :: 0 <= i < |r.alerts| ==> Witnessed(p, r.seen, r.alerts[i])
  {
    var r := Next(p, w, s);
    forall i | 0 <= i < |r.alerts|
      ensures Witnessed(p, r.seen, r.alerts[i])
    {
      if i < |w.alerts| { WitnessedLater(p, w.seen, s, w.alerts[i]); } else { NewAlertWitnessed(p, w, s, clock); }
    }
  }

  /** Expiry forgets no live cooldown, because an alert is never later than its window start. */
  lemma CleanStep(p: Params, w: World, s: Step, clock: int)
    requires Inv(p, w, clock) && s.Clean? && clock <= s.now && EvictsNoCooldown(p, w.state, s)
    ensures Inv(p, Next(p, w, s), s.now)
  {
    var r := Next(p, w, s);
    forall k | k in r.state
      ensures EntryOk(p, r, k, s.now)
    {
      assert EntryOk(p, w, k, clock);
      forall item | item in r.state[k].items
        ensures SeenIn(r.seen, k, item, r.state[k].windowStart, s.now)
      {
        SeenLater(w.seen, s, k, item, r.state[k].windowStart, clock, s.now);
      }
    }
    forall i | 0 <= i < |r.alerts|
      ensures Remembered(p, r, r.alerts[i], s.now)
    {
      var a := w.alerts[i];
      assert Remembered(p, w, a, clock);
      if a.key in w.state && a.key !in r.state { assert EntryOk(p, w, a.key, clock); }
    }
  }

  /** Over every orderly run, alerts of one key are at least one window apart, and each is
      witnessed by exactly the needed number of distinct items seen within less than a window. */
  lemma {:induction false} AlertsSpacedAndWitnessed(p: Params, w: World, steps: seq<Step>, clock: int)
    requires p.window > 0 && Inv(p, w, clock) && Orderly(p, w, steps, clock)
    ensures var r := Run(p, w, steps);
            && Spaced(p, r.alerts)
            && forall i :: 0 <= i < |r.alerts| ==> Witnessed(p, r.seen, r.alerts[i])
    decreases |steps|
  {
    if steps != [] {
      if steps[0].Observe? {
        ObserveEntries(p, w, steps[0], clock);
        ObserveRemembers(p, w, steps[0], clock);
        ObserveWitnesses(p, w, steps[0], clock);
      } else {
        CleanStep(p, w, steps[0], clock);
      }
      AlertsSpacedAndWitnessed(p, Next(p, w, steps[0]), steps[1..], steps[0].now);
    }
  }

  // ----- enough distinct items within a window do alert -----

  /** The items of `k` in the steps. */
  function ItemsOf(steps: seq<Step>, k: Key): (items: set<Item>) {
    if steps == [] then {}
    else (if steps[0].Observe? && steps[0].key == k then {steps[0].item} else {}) + ItemsOf(steps[1..], k)
  }

  function AlertsOf(alerts: seq<Alert>, k: Key): (r: seq<Alert>) {
    if alerts == [] then []
    else
      var last := alerts[|alerts| - 1];
      AlertsOf(alerts[..|alerts| - 1], k) + if last.key == k then [last] else []
  }

  lemma AlertsOfAppend(alerts: seq<Alert>, a: Alert, k: Key)
    ensures AlertsOf(alerts + [a], k) == AlertsOf(alerts, k) + if a.key == k then [a] else []
  {
    assert (alerts + [a])[..|alerts|] == alerts;
  }

  /** Time moves forward, and what concerns `k` comes less than a window after `first`: other keys
      are observed at will, and cleanups do not evict `k`. */
  predicate Within(p: Params, steps: seq<Step>, k: Key, first: int, clock: int)
    decreases |steps|
  {
    steps != [] ==>
      && clock <= steps[0].now
      && (steps[0].Observe? && steps[0].key == k ==> steps[0].now < first + p.window)
      && (steps[0].Clean? ==> steps[0].now < first + p.window && k !in steps[0].evicted)
      && Within(p, steps[1..], k, first, steps[0].now)
  }

  function EndClock(steps: seq<Step>, clock: int): (t: int) {
    if steps == [] then clock else EndClock(steps[1..], steps[0].now)
  }

  /** What becomes of an entry that collects the step's item. */
  ghost predicate Keeps(p: Params, w: World, k: Key, s: Step, e: Entry, items: set<Item>) {
    var r := Next(p, w, s);
    k in r.state && r.state[k] == e.(items := items) && AlertsOf(r.alerts, k) == AlertsOf(w.alerts, k)
  }

  lemma CollectItem(p: Params, w: World, k: Key, item: Item, now: int, e: Entry)
    requires k in w.state && w.state[k] == e && e.windowStart <= now < e.windowStart + p.window
    requires |e.items + {item}| < p.Needed()
    ensures Keeps(p, w, k, Observe(k, item, now), e, e.items + {item})
  {
    assert item in e.items + {item};
  }

  lemma PassOver(p: Params, w: World, k: Key, s: Step, e: Entry)
    requires k in w.state && w.state[k] == e && e.windowStart <= s.now
    requires s.Observe? ==> s.key != k
    requires s.Clean? ==> s.now < e.windowStart + p.window && k !in s.evicted
    ensures Keeps(p, w, k, s, e, e.items)
  {
    var r := Next(p, w, s);
    if r.alerts != w.alerts { AlertsOfAppend(w.alerts, r.alerts[|w.alerts|], k); }
  }

  /** One step of such a run that does not fill the window adds its item to it. */
  lemma CollectOne(p: Params, w: World, k: Key, s: Step, e: Entry)
    requires k in w.state && w.state[k] == e && e.windowStart <= s.now
    requires s.Observe? && s.key == k ==> s.now < e.windowStart + p.window
    requires s.Clean? ==> s.now < e.windowStart + p.window && k !in s.evicted
    requires |e.items + ItemsOf([s], k)| < p.Needed()
    ensures Keeps(p, w, k, s, e, e.items + ItemsOf([s], k))
  {
    OneItem(s, k);
    if s.Observe? && s.key == k {
      CollectItem(p, w, k, s.item, s.now, e);
    } else {
      assert e.items + {} == e.items;
      PassOver(p, w, k, s, e);
    }
  }

  lemma OneItem(s: Step, k: Key)
    ensures ItemsOf([s], k) == if s.Observe? && s.key == k then {s.item} else {}
  {
    assert [s][1..] == [];
  }

  /** A cleanup keeps an entry exactly until its window has passed. */
  lemma UnexpiredExactly(p: Params, s: State, now: int, k: Key)
    requires p.window > 0
    ensures k in Unexpired(p, s, now) <==> k in s && now < s[k].windowStart + p.window
  {}

  lemma Regroup(a: set<Item>, b: set<Item>, c: set<Item>)
    ensures a + b + c == a + (b + c)
  {}

  lemma SizeLe(a: set<Item>, b: set<Item>)
    requires a <= b
    ensures |a| <= |b|
  {
    assert b == a + (b - a);
  }

  /** Until the window is full, its entry holds exactly the items observed since it began, its start
      and cooldown stand, and nothing is raised for the key. */
  lemma {:induction false} Collects(p: Params, w: World, k: Key, steps: seq<Step>, clock: int, e: Entry)
    requires k in w.state && w.state[k] == e && e.windowStart <= clock && Within(p, steps, k, e.windowStart, clock)
    requires |e.items + ItemsOf(steps, k)| < p.Needed()
    ensures var r := Run(p, w, steps);
            k in r.state && r.state[k] == e.(items := e.items + ItemsOf(steps, k)) && AlertsOf(r.alerts, k) == AlertsOf(w.alerts, k)
    decreases |steps|
  {
    if steps == [] {
      assert e.items + {} == e.items;
    } else {
      var s := steps[0];
      OneItem(s, k);
      assert ItemsOf(steps, k) == ItemsOf([s], k) + ItemsOf(steps[1..], k);
      SizeLe(e.items + ItemsOf([s], k), e.items + ItemsOf(steps, k));
      CollectOne(p, w, k, s, e);
      var e' := e.(items := e.items + ItemsOf([s], k));
      Regroup(e.items, ItemsOf([s], k), ItemsOf(steps[1..], k));
      Collects(p, Next(p, w, s), k, steps[1..], s.now, e');
    }
  }

  /** A window opens now for the key, with no cooldown running. */
  predicate OpensNow(p: Params, w: World, k: Key, now: int) {
    var open := Opened(p, Find(w.state, k), now);
    (k !in w.state || w.state[k].windowStart + p.window <= now) && !CoolingDown(p, open, now)
  }

  lemma FirstItem(p: Params, w: World, k: Key, item: Item, now: int)
    requires OpensNow(p, w, k, now) && p.window > 0 && p.Needed() > 1
    ensures var r := Next(p, w, Observe(k, item, now));
            && k in r.state && r.state[k].items == {item} && r.state[k].windowStart == now
            && !CoolingDown(p, r.state[k], now) && AlertsOf(r.alerts, k) == AlertsOf(w.alerts, k)
  {
    assert {} + {item} == {item};
  }

  /** The next item, still within the window, raises the alert exactly when it fills it. */
  lemma LastItem(p: Params, w: World, k: Key, e: Entry, item: Item, now: int)
    requires k in w.state && w.state[k] == e && e.windowStart <= now < e.windowStart + p.window
    requires !CoolingDown(p, e, e.windowStart)
    ensures var r, items := Next(p, w, Observe(k, item, now)), e.items + {item};
            AlertsOf(r.alerts, k) == AlertsOf(w.alerts, k) + if |items| >= p.Needed() then [Alert(k, now, items)] else []
  {
    var r, items := Next(p, w, Observe(k, item, now)), e.items + {item};
    assert item in items;
    if r.alerts != w.alerts { AlertsOfAppend(w.alerts, r.alerts[|w.alerts|], k); }
  }

  /** For a key with no window and no cooldown running: observations less than a window after the
      first raise an alert exactly at the one that completes the needed number of distinct items, and
      with exactly those items, whatever other keys and cleanups do meanwhile. */
  lemma AlertsExactlyWhenFilled(p: Params, w: World, k: Key, item0: Item, first: int, steps: seq<Step>, item: Item, now: int)
    requires p.window > 0 && OpensNow(p, w, k, first)
    requires Within(p, steps, k, first, first) && EndClock(steps, first) <= now < first + p.window
    requires |{item0} + ItemsOf(steps, k)| < p.Needed()
    ensures var before := Run(p, Next(p, w, Observe(k, item0, first)), steps);
            var r, items := Next(p, before, Observe(k, item, now)), {item0} + ItemsOf(steps, k) + {item};
            && AlertsOf(before.alerts, k) == AlertsOf(w.alerts, k)
            && AlertsOf(r.alerts, k) == AlertsOf(w.alerts, k) + if |items| >= p.Needed() then [Alert(k, now, items)] else []
  {
    SizeLe({item0}, {item0} + ItemsOf(steps, k));
    var begun := Next(p, w, Observe(k, item0, first));
    FirstItem(p, w, k, item0, first);
    Collects(p, begun, k, steps, first, begun.state[k]);
    EndIsLater(p, steps, k, first, first);
    var before := Run(p, begun, steps);
    LastItem(p, before, k, before.state[k], item, now);
  }

  lemma {:induction false} EndIsLater(p: Params, steps: seq<Step>, k: Key, first: int, clock: int)
    requires Within(p, steps, k, first, clock)
    ensures clock <= EndClock(steps, clock)
    decreases |steps|
  {
    if steps != [] { EndIsLater(p, steps[1..], k, first, steps[0].now); }
  }

  /** A window's start moves exactly when an observation of its key finds it a window old or fills it. */
  lemma WindowMovesExactly(p: Params, w: World, s: Step, k: Key)
    requires k in w.state && k in Next(p, w, s).state && p.window > 0 && w.state[k].windowStart < s.now
    ensures Next(p, w, s).state[k].windowStart != w.state[k].windowStart <==>
            && s.Observe? && s.key == k
            && (s.now >= w.state[k].windowStart + p.window || |w.state[k].items + {s.item}| >= p.Needed())
  {
    if s.Observe? && s.key == k { assert s.item in w.state[k].items + {s.item}; }
  }

  // ----- what each detector watches -----

  /** What the detector sees of flows at these times; the others it skips. */
  function Watched(kind: Kind, internal: Ip -> bool, flows: seq<FlowObservation>, times: seq<int>): (steps: seq<Step>)
    requires |flows| == |times|
  {
    if flows == [] then []
    else
      (match Projection(kind, internal, flows[0])
       case None => []
       case Some((k, item)) => [Observe(k, item, times[0])])
      + Watched(kind, internal, flows[1..], times[1..])
  }

  /** Times in order, the last less than a window after the first. */
  predicate InOneWindow(p: Params, times: seq<int>) {
    && (forall i, j :: 0 <= i < j < |times| ==> times[i] <= times[j])
    && (forall i :: 0 <= i < |times| ==> times[i] < times[0] + p.window)
  }

  function Sightings(k: Key, items: seq<Item>, times: seq<int>): (steps: seq<Step>)
    requires |items| == |times|
  {
    if items == [] then [] else [Observe(k, items[0], times[0])] + Sightings(k, items[1..], times[1..])
  }

  /** Observations of one key at increasing times collect their items. */
  lemma {:induction false} SightingsCollect(p: Params, k: Key, items: seq<Item>, times: seq<int>, first: int, clock: int)
    requires |items| == |times| && (forall i :: 0 <= i < |times| ==> clock <= times[i] < first + p.window)
    requires forall i, j :: 0 <= i < j < |times| ==> times[i] <= times[j]
    ensures Within(p, Sightings(k, items, times), k, first, clock)
    ensures ItemsOf(Sightings(k, items, times), k) == set x | x in items
    ensures EndClock(Sightings(k, items, times), clock) == if times == [] then clock else times[|times| - 1]
    decreases |items|
  {
    if items != [] {
      var rest := Sightings(k, items[1..], times[1..]);
      assert Sightings(k, items, times)[1..] == rest;
      SightingsCollect(p, k, items[1..], times[1..], first, times[0]);
      assert items == [items[0]] + items[1..];
    }
  }

  lemma {:induction false} DistinctCount(items: seq<Item>)
    requires NoDuplicates(items)
    ensures |set x | x in items| == |items|
  {
    if items != [] {
      var n := |items| - 1;
      DistinctCount(items[..n]);
      assert items == items[..n] + [items[n]];
      assert (set x | x in items) == (set x | x in items[..n]) + {items[n]};
    }
  }

  const Quiet: World := World(map[], [], [])

  lemma {:induction false} RunSplit(p: Params, w: World, a: seq<Step>, b: seq<Step>)
    ensures Run(p, w, a + b) == Run(p, Run(p, w, a), b)
    decreases |a|
  {
    if a == [] {
      assert a + b == b;
    } else {
      assert (a + b)[1..] == a[1..] + b;
      RunSplit(p, Next(p, w, a[0]), a[1..], b);
    }
  }

  lemma {:induction false} SightingsSplit(k: Key, items: seq<Item>, times: seq<int>)
    requires |items| == |times| >= 1
    ensures var n := |items| - 1;
            Sightings(k, items, times) == Sightings(k, items[..n], times[..n]) + [Observe(k, items[n], times[n])]
    decreases |items|
  {
    var n := |items| - 1;
    if n > 0 {
      SightingsSplit(k, items[1..], times[1..]);
      assert items[1..][..n - 1] == items[..n][1..] && times[1..][..n - 1] == times[..n][1..];
    } else {
      assert items[1..] == [] && times[1..] == [];
    }
  }

  /** As many distinct items of a key as an alert takes, within a window, raise it at the last. */
  lemma DistinctItemsAlert(p: Params, k: Key, items: seq<Item>, times: seq<int>)
    requires p.window > 0 && |items| == |times| == p.Needed() && NoDuplicates(items) && InOneWindow(p, times)
    ensures var alerts := AlertsOf(Run(p, Quiet, Sightings(k, items, times)).alerts, k);
            alerts == [Alert(k, times[|times| - 1], set x | x in items)]
  {
    var n := |items| - 1;
    SightingsSplit(k, items, times);
    if n == 0 {
      assert items == [items[0]] && Sightings(k, items[..0], times[..0]) == [];
      OnlyItemAlerts(p, k, items[0], times[0]);
      assert [] + [Observe(k, items[0], times[0])] == [Observe(k, items[0], times[0])];
    } else {
      var steps := Sightings(k, items[1..n], times[1..n]);
      SightingsParts(k, items, times, n);
      RunLast(p, Next(p, Quiet, Observe(k, items[0], times[0])), steps, Observe(k, items[n], times[n]));
      RunFirst(p, Quiet, Observe(k, items[0], times[0]), steps + [Observe(k, items[n], times[n])]);
      ManyItemsAlert(p, k, items, times, n);
    }
  }

  lemma SightingsParts(k: Key, items: seq<Item>, times: seq<int>, n: nat)
    requires |items| == |times| == n + 1 && n > 0
    ensures Sightings(k, items, times)
         == [Observe(k, items[0], times[0])] + (Sightings(k, items[1..n], times[1..n]) + [Observe(k, items[n], times[n])])
  {
    SightingsSplit(k, items, times);
    assert items[..n][1..] == items[1..n] && times[..n][1..] == times[1..n];
  }

  lemma ManyItemsAlert(p: Params, k: Key, items: seq<Item>, times: seq<int>, n: nat)
    requires p.window > 0 && |items| == |times| == p.Needed() == n + 1 && n > 0 && NoDuplicates(items) && InOneWindow(p, times)
    ensures var before := Run(p, Next(p, Quiet, Observe(k, items[0], times[0])), Sightings(k, items[1..n], times[1..n]));
            AlertsOf(Next(p, before, Observe(k, items[n], times[n])).alerts, k) == [Alert(k, times[n], set x | x in items)]
  {
    SightingsCollect(p, k, items[1..n], times[1..n], times[0], times[0]);
    ItemsBetween(items, n);
    DistinctCount(items);
    DistinctCount(items[..n]);
    AlertsExactlyWhenFilled(p, Quiet, k, items[0], times[0], Sightings(k, items[1..n], times[1..n]), items[n], times[n]);
  }

  lemma ItemsBetween(items: seq<Item>, n: nat)
    requires n == |items| - 1 > 0
    ensures {items[0]} + (set x | x in items[1..n]) == set x | x in items[..n]
    ensures (set x | x in items[..n]) + {items[n]} == set x | x in items
  {
    assert items[..n] == [items[0]] + items[1..n];
    assert items == items[..n] + [items[n]];
  }

  lemma OnlyItemAlerts(p: Params, k: Key, item: Item, now: int)
    requires p.window > 0 && p.Needed() == 1
    ensures AlertsOf(Run(p, Quiet, [Observe(k, item, now)]).alerts, k) == [Alert(k, now, set x | x in [item])]
  {
    assert (set x | x in [item]) == {item} == {} + {item};
    assert [Observe(k, item, now)][1..] == [];
    var r := Next(p, Quiet, Observe(k, item, now));
    assert r.alerts == [] + [Alert(k, now, {item})];
    AlertsOfAppend([], Alert(k, now, {item}), k);
  }

  lemma RunFirst(p: Params, w: World, s: Step, rest: seq<Step>)
    ensures Run(p, w, [s] + rest) == Run(p, Next(p, w, s), rest)
  {
    assert ([s] + rest)[1..] == rest;
  }

  lemma RunLast(p: Params, w: World, steps: seq<Step>, s: Step)
    ensures Run(p, w, steps + [s]) == Next(p, Run(p, w, steps), s)
  {
    RunSplit(p, w, steps, [s]);
    assert [s][1..] == [];
  }

  /** Flows that a detector all sees as one key are sightings of their items. */
  lemma {:induction false} WatchedAsOneKey(kind: Kind, internal: Ip -> bool, flows: seq<FlowObservation>, times: seq<int>, k: Key, items: seq<Item>)
    requires |flows| == |times| == |items|
    requires forall i :: 0 <= i < |flows| ==> Projection(kind, internal, flows[i]) == Some((k, items[i]))
    ensures Watched(kind, internal, flows, times) == Sightings(k, items, times)
    decreases |flows|
  {
    if flows != [] {
      assert Projection(kind, internal, flows[0]) == Some((k, items[0]));
      WatchedAsOneKey(kind, internal, flows[1..], times[1..], k, items[1..]);
    }
  }

  /** One source touching enough different ports, of whatever hosts, is a scan. */
  lemma PortsOfOneSourceAreAScan(p: Params, internal: Ip -> bool, flows: seq<FlowObservation>, times: seq<int>, src: Ip)
    requires p.window > 0 && |flows| == |times| == p.Needed() && InOneWindow(p, times)
    requires forall i :: 0 <= i < |flows| ==> flows[i].srcIp == src
    requires forall i, j :: 0 <= i < j < |flows| ==> flows[i].dstPort != flows[j].dstPort
    ensures var alerts := AlertsOf(Run(p, Quiet, Watched(Scan, internal, flows, times)).alerts, BySource(src));
            |alerts| == 1 && alerts[0].now == times[|times| - 1] && |alerts[0].items| == p.Needed()
  {
    var items := seq(|flows|, i requires 0 <= i < |flows| => Port(flows[i].dstPort));
    WatchedAsOneKey(Scan, internal, flows, times, BySource(src), items);
    DistinctItemsAlert(p, BySource(src), items, times);
    DistinctCount(items);
  }

  /** One service, host, protocol and port, reached from enough different sources is a botnet's. */
  lemma SourcesOfOneServiceAreABotnet(p: Params, internal: Ip -> bool, flows: seq<FlowObservation>, times: seq<int>, dst: Ip, protocol: nat, port: nat)
    requires p.window > 0 && |flows| == |times| == p.Needed() && InOneWindow(p, times)
    requires forall i :: 0 <= i < |flows| ==> flows[i].dstIp == dst && flows[i].protocol == protocol && flows[i].dstPort == port
    requires forall i, j :: 0 <= i < j < |flows| ==> flows[i].srcIp != flows[j].srcIp
    ensures var alerts := AlertsOf(Run(p, Quiet, Watched(Botnet, internal, flows, times)).alerts, ByService(dst, protocol, port));
            |alerts| == 1 && alerts[0].now == times[|times| - 1] && |alerts[0].items| == p.Needed()
  {
    var items := seq(|flows|, i requires 0 <= i < |flows| => Host(flows[i].srcIp));
    WatchedAsOneKey(Botnet, internal, flows, times, ByService(dst, protocol, port), items);
    DistinctItemsAlert(p, ByService(dst, protocol, port), items, times);
    DistinctCount(items);
  }

  /** One internal host reaching enough different internal hosts, on whatever ports, moves laterally. */
  lemma HostsOfOneSourceAreLateral(p: Params, internal: Ip -> bool, flows: seq<FlowObservation>, times: seq<int>, src: Ip)
    requires p.window > 0 && |flows| == |times| == p.Needed() && InOneWindow(p, times) && internal(src)
    requires forall i :: 0 <= i < |flows| ==> flows[i].srcIp == src && internal(flows[i].dstIp)
    requires forall i, j :: 0 <= i < j < |flows| ==> flows[i].dstIp != flows[j].dstIp
    ensures var alerts := AlertsOf(Run(p, Quiet, Watched(Lateral, internal, flows, times)).alerts, BySource(src));
            |alerts| == 1 && alerts[0].now == times[|times| - 1] && |alerts[0].items| == p.Needed()
  {
    var items := seq(|flows|, i requires 0 <= i < |flows| => Host(flows[i].dstIp));
    WatchedAsOneKey(Lateral, internal, flows, times, BySource(src), items);
    DistinctItemsAlert(p, BySource(src), items, times);
    DistinctCount(items);
  }

  /** Flows that leave or enter the network are nothing to the lateral detector. */
  lemma {:induction false} OutsideFlowsAreNotLateral(internal: Ip -> bool, flows: seq<FlowObservation>, times: seq<int>)
    requires |flows| == |times| && forall i :: 0 <= i < |flows| ==> !internal(flows[i].srcIp) || !internal(flows[i].dstIp)
    ensures Watched(Lateral, internal, flows, times) == []
    decreases |flows|
  {
    if flows != [] { OutsideFlowsAreNotLateral(internal, flows[1..], times[1..]); }
  }

  // ----- when spacing holds, exactly -----

  /** A cleanup forgets a cooling key exactly when it is evicted: expiry never does it. */
  lemma CleanForgetsExactly(p: Params, w: World, s: Step, k: Key, clock: int)
    requires Inv(p, w, clock) && s.Clean? && clock <= s.now
    requires k in w.state && CoolingDown(p, w.state[k], s.now)
    ensures k !in Next(p, w, s).state <==> k in s.evicted
  {
    assert EntryOk(p, w, k, clock);
  }

  /** One observation of each item, all at once. */
  function Burst(k: Key, items: seq<Item>, now: int): (steps: seq<Step>) {
    if items == [] then [] else [Observe(k, items[0], now)] + Burst(k, items[1..], now)
  }

  lemma {:induction false} BurstIsOrderly(p: Params, w: World, k: Key, items: seq<Item>, now: int)
    ensures Orderly(p, w, Burst(k, items, now), now)
    decreases |items|
  {
    if items != [] {
      var s := Observe(k, items[0], now);
      assert Burst(k, items, now)[1..] == Burst(k, items[1..], now);
      BurstIsOrderly(p, Next(p, w, s), k, items[1..], now);
    }
  }

  /** An item that completes a fresh window raises an alert, any other one is collected. */
  lemma BurstStep(p: Params, w: World, k: Key, held: set<Item>, item: Item, now: int)
    requires p.window > 0 && Opened(p, Find(w.state, k), now) == Entry(held, now, None)
    requires item !in held && |held| + 1 <= p.Needed()
    ensures var r := Next(p, w, Observe(k, item, now));
            if |held| + 1 < p.Needed() then r.alerts == w.alerts && Opened(p, Find(r.state, k), now) == Entry(held + {item}, now, None)
            else r.alerts == w.alerts + [Alert(k, now, held + {item})]
  {}

  /** As many distinct items as an alert takes, seen by a key without an entry, raise one alert. */
  lemma {:induction false} BurstAlerts(p: Params, w: World, k: Key, held: set<Item>, items: seq<Item>, now: int)
    requires p.window > 0 && Opened(p, Find(w.state, k), now) == Entry(held, now, None)
    requires items != [] && NoDuplicates(items) && (forall i :: 0 <= i < |items| ==> items[i] !in held)
    requires |held| + |items| == p.Needed()
    ensures var r := Run(p, w, Burst(k, items, now));
            |r.alerts| == |w.alerts| + 1 && r.alerts[..|w.alerts|] == w.alerts
            && r.alerts[|w.alerts|].key == k && r.alerts[|w.alerts|].now == now
    decreases |items|
  {
    var s := Observe(k, items[0], now);
    var next := Next(p, w, s);
    assert Burst(k, items, now)[1..] == Burst(k, items[1..], now);
    BurstStep(p, w, k, held, items[0], now);
    if |items| > 1 {
      BurstAlerts(p, next, k, held + {items[0]}, items[1..], now);
    } else {
      assert Burst(k, items[1..], now) == [];
    }
  }

  /** The elements of a set, each once. */
  lemma {:induction false} Enumerate(s: set<Item>) returns (items: seq<Item>)
    ensures NoDuplicates(items) && |items| == |s| && forall x :: x in items <==> x in s
    decreases |s|
  {
    if s == {} {
      items := [];
    } else {
      var x :| x in s;
      var rest := Enumerate(s - {x});
      items := rest + [x];
    }
  }

  /** From here on, spacing holds whatever happens, as long as later evictions spare cooldowns. */
  ghost predicate Unbreakable(p: Params, w: World, clock: int) {
    forall steps :: Orderly(p, w, steps, clock) ==> Spaced(p, Run(p, w, steps).alerts)
  }

  /** An evicted live cooldown has a continuation that alerts again inside the window: the items
      of the alert before, seen once more. */
  lemma EvictionIsBreakable(p: Params, w: World, s: Step, k: Key, clock: int)
    requires p.window > 0 && Inv(p, w, clock) && s.Clean? && clock <= s.now
    requires k in w.state && CoolingDown(p, w.state[k], s.now) && k in s.evicted
    ensures !Unbreakable(p, Next(p, w, s), s.now)
  {
    var r := Next(p, w, s);
    assert EntryOk(p, w, k, clock);
    var i :| 0 <= i < |w.alerts| && w.alerts[i].key == k && w.alerts[i].now == w.state[k].lastAlerted.value;
    assert Witnessed(p, w.seen, w.alerts[i]);
    var items := Enumerate(w.alerts[i].items);
    BurstIsOrderly(p, r, k, items, s.now);
    BurstAlerts(p, r, k, {}, items, s.now);
    var alerts := Run(p, r, Burst(k, items, s.now)).alerts;
    assert alerts[i] == alerts[..|w.alerts|][i] == w.alerts[i];
    assert alerts[|w.alerts|].now < alerts[i].now + p.window;
    assert !Spaced(p, alerts);
  }

  /** A cleanup leaves spacing safe exactly when it evicts no live cooldown. */
  lemma CleanIsSafeExactly(p: Params, w: World, s: Step, clock: int)
    requires p.window > 0 && Inv(p, w, clock) && s.Clean? && clock <= s.now
    ensures Unbreakable(p, Next(p, w, s), s.now) <==> EvictsNoCooldown(p, w.state, s)
  {
    if EvictsNoCooldown(p, w.state, s) {
      CleanStep(p, w, s, clock);
      InvIsUnbreakable(p, Next(p, w, s), s.now);
    } else {
      var k :| k in s.evicted && k in w.state && CoolingDown(p, w.state[k], s.now);
      EvictionIsBreakable(p, w, s, k, clock);
    }
  }

  lemma InvIsUnbreakable(p: Params, w: World, clock: int)
    requires p.window > 0 && Inv(p, w, clock)
    ensures Unbreakable(p, w, clock)
  {
    forall steps | Orderly(p, w, steps, clock) ensures Spaced(p, Run(p, w, steps).alerts) {
      AlertsSpacedAndWitnessed(p, w, steps, clock);
    }
  }

  predicate Timed(steps: seq<Step>, clock: int)
    decreases |steps|
  {
    steps != [] ==> clock <= steps[0].now && Timed(steps[1..], steps[0].now)
  }

  ghost predicate AlwaysUnbreakable(p: Params, w: World, steps: seq<Step>, clock: int)
    decreases |steps|
  {
    Unbreakable(p, w, clock) && (steps != [] ==> AlwaysUnbreakable(p, Next(p, w, steps[0]), steps[1..], steps[0].now))
  }

  /** Over every run: spacing is safe at each point exactly when no cleanup evicts a live cooldown. */
  lemma {:induction false} SpacingIsSafeExactly(p: Params, w: World, steps: seq<Step>, clock: int)
    requires p.window > 0 && Inv(p, w, clock) && Timed(steps, clock)
    ensures AlwaysUnbreakable(p, w, steps, clock) <==> Orderly(p, w, steps, clock)
    decreases |steps|
  {
    InvIsUnbreakable(p, w, clock);
    if steps != [] {
      var s := steps[0];
      if s.Observe? {
        ObserveEntries(p, w, s, clock);
        ObserveRemembers(p, w, s, clock);
        ObserveWitnesses(p, w, s, clock);
        SpacingIsSafeExactly(p, Next(p, w, s), steps[1..], s.now);
      } else {
        CleanIsSafeExactly(p, w, s, clock);
        if EvictsNoCooldown(p, w.state, s) {
          CleanStep(p, w, s, clock);
          SpacingIsSafeExactly(p, Next(p, w, s), steps[1..], s.now);
        }
      }
    }
  }

  // ----- the same before the call: which entries an eviction picks is not known -----

  /** The cap evicts nothing, or nothing is cooling down. */
  ghost predicate RoomToClean(p: Params, s: State, now: int) {
    || |Unexpired(p, s, now)| <= p.maxTracked
    || forall k :: k in s ==> !CoolingDown(p, s[k], now)
  }

  /** Whatever the cap makes a cleanup evict now, spacing stays safe. */
  ghost predicate AnyCleanIsSafe(p: Params, w: World, now: int) {
    forall evicted :: EvictsExcess(p, w.state, now, evicted) ==> Unbreakable(p, Next(p, w, Clean(now, evicted)), now)
  }

  lemma RoomSparesCooldowns(p: Params, s: State, now: int, evicted: set<Key>)
    requires RoomToClean(p, s, now) && EvictsExcess(p, s, now, evicted)
    ensures EvictsNoCooldown(p, s, Clean(now, evicted))
  {
    if |Unexpired(p, s, now)| <= p.maxTracked { assert evicted == {}; }
  }

  /** A cleanup is safe, whatever it evicts, exactly when the unexpired entries are within the cap
      or none of them is cooling down. */
  lemma AnyCleanIsSafeExactly(p: Params, w: World, now: int, clock: int)
    requires p.window > 0 && Inv(p, w, clock) && clock <= now
    ensures AnyCleanIsSafe(p, w, now) <==> RoomToClean(p, w.state, now)
  {
    if RoomToClean(p, w.state, now) {
      forall evicted | EvictsExcess(p, w.state, now, evicted)
        ensures Unbreakable(p, Next(p, w, Clean(now, evicted)), now)
      {
        RoomSparesCooldowns(p, w.state, now, evicted);
        CleanIsSafeExactly(p, w, Clean(now, evicted), clock);
      }
    } else {
      var k :| k in w.state && CoolingDown(p, w.state[k], now);
      var kept := Unexpired(p, w.state, now);
      assert EntryOk(p, w, k, clock) && k in kept;
      var evicted := SubsetWith(kept.Keys, k, |kept| - p.maxTracked);
      assert EvictsExcess(p, w.state, now, evicted);
      EvictionIsBreakable(p, w, Clean(now, evicted), k, clock);
    }
  }

  /** The cleanups of the run evict what the cap makes them evict. */
  ghost predicate Capped(p: Params, w: World, steps: seq<Step>)
    decreases |steps|
  {
    steps != [] ==>
      && (steps[0].Clean? ==> EvictsExcess(p, w.state, steps[0].now, steps[0].evicted))
      && Capped(p, Next(p, w, steps[0]), steps[1..])
  }

  ghost predicate AlwaysRoom(p: Params, w: World, steps: seq<Step>)
    decreases |steps|
  {
    steps != [] ==>
      && (steps[0].Clean? ==> RoomToClean(p, w.state, steps[0].now))
      && AlwaysRoom(p, Next(p, w, steps[0]), steps[1..])
  }

  ghost predicate AnyCleanAlwaysSafe(p: Params, w: World, steps: seq<Step>)
    decreases |steps|
  {
    steps != [] ==>
      && (steps[0].Clean? ==> AnyCleanIsSafe(p, w, steps[0].now))
      && AnyCleanAlwaysSafe(p, Next(p, w, steps[0]), steps[1..])
  }

  /** Over every run: each cleanup is safe whatever it evicts exactly when, before each, the
      unexpired entries are within the cap or none is cooling down. */
  lemma {:induction false} SpacingNeedsRoomExactly(p: Params, w: World, steps: seq<Step>, clock: int)
    requires p.window > 0 && Inv(p, w, clock) && Timed(steps, clock) && Capped(p, w, steps)
    ensures AnyCleanAlwaysSafe(p, w, steps) <==> AlwaysRoom(p, w, steps)
    ensures AlwaysRoom(p, w, steps) ==> Spaced(p, Run(p, w, steps).alerts)
    decreases |steps|
  {
    if steps != [] {
      var s := steps[0];
      if s.Observe? {
        ObserveEntries(p, w, s, clock);
        ObserveRemembers(p, w, s, clock);
        ObserveWitnesses(p, w, s, clock);
        SpacingNeedsRoomExactly(p, Next(p, w, s), steps[1..], s.now);
      } else {
        AnyCleanIsSafeExactly(p, w, s.now, clock);
        if RoomToClean(p, w.state, s.now) {
          RoomSparesCooldowns(p, w.state, s.now, s.evicted);
          CleanStep(p, w, s, clock);
          SpacingNeedsRoomExactly(p, Next(p, w, s), steps[1..], s.now);
        }
      }
    }
  }

  /** With room for one entry, a second key makes the cleanup evict the first one's cooldown, and
      it alerts twice within two seconds of a ten-second window. */
  lemma EvictionBreaksSpacing(k: Key, q: Key)
    requires k != q
    ensures var p := Params(10, 1, 1);
            var w1 := Next(p, World(map[], [], []), Observe(k, Port(1), 0));
            var w2 := Next(p, w1, Observe(q, Port(1), 1));
            var w3 := Next(p, w2, Clean(1, {k}));
            var w4 := Next(p, w3, Observe(k, Port(2), 2));
            EvictsExcess(p, w2.state, 1, {k}) && !Spaced(p, w4.alerts)
  {
    var p := Params(10, 1, 1);
    var w0 := World(map[], [], []);
    var w1 := Next(p, w0, Observe(k, Port(1), 0));
    FirstSight(p, w0, k, Port(1), 0);
    var w2 := Next(p, w1, Observe(q, Port(1), 1));
    FirstSight(p, w1, q, Port(1), 1);
    assert w2.state.Keys == {k, q};
    assert Unexpired(p, w2.state, 1) == w2.state;
    assert |w2.state| == |w2.state.Keys| == 2;
    var w3 := Next(p, w2, Clean(1, {k}));
    FirstSight(p, w3, k, Port(2), 2);
    var w4 := Next(p, w3, Observe(k, Port(2), 2));
    assert w4.alerts[0].key == w4.alerts[2].key == k && w4.alerts[0].now == 0 && w4.alerts[2].now == 2;
  }

  /** With a threshold of one, a key without an entry alerts at once. */
  lemma FirstSight(p: Params, w: World, k: Key, item: Item, now: int)
    requires p.threshold == 1 && k !in w.state
    ensures var r := Next(p, w, Observe(k, item, now));
            r.state == w.state[k := Entry({}, now, Some(now))] && r.alerts == w.alerts + [Alert(k, now, {item})]
  {
    assert {} + {item} == {item};
  }
}
