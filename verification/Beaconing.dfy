// The beaconing detector of net-guardia/src/core/detection/beaconing.rs. Instants, durations and
// scores are exact reals; the square root and `f64::MAX` are parameters.

module Statistics {
  function Square(x: real): (y: real) {
    x * x
  }

  /** Sums over a sequence of intervals. */
  function Sum(xs: seq<real>): (s: real) {
    if xs == [] then 0.0 else Sum(xs[..|xs| - 1]) + xs[|xs| - 1]
  }

  function SumSquares(xs: seq<real>): (s: real) {
    if xs == [] then 0.0 else SumSquares(xs[..|xs| - 1]) + Square(xs[|xs| - 1])
  }

  function SumSquaredDeviations(xs: seq<real>, m: real): (s: real)
    ensures s >= 0.0
  {
    if xs == [] then 0.0
    else
      SquareSign(xs[|xs| - 1] - m);
      SumSquaredDeviations(xs[..|xs| - 1], m) + Square(xs[|xs| - 1] - m)
  }

  function Mean(xs: seq<real>): (m: real)
    requires xs != []
  {
    Sum(xs) / |xs| as real
  }

  /** The mean squared deviation from the mean. */
  function Variance(xs: seq<real>): (v: real)
    requires xs != []
    ensures v >= 0.0
  {
    SumSquaredDeviations(xs, Mean(xs)) / |xs| as real
  }

  predicate AllEqual(xs: seq<real>) {
    forall i, j :: 0 <= i < |xs| && 0 <= j < |xs| ==> xs[i] == xs[j]
  }

  predicate NonNegative(xs: seq<real>) {
    forall i :: 0 <= i < |xs| ==> xs[i] >= 0.0
  }

  /** The squared deviations from `m` of `n` values with sum `s` and sum of squares `q`. */
  predicate Expands(d: real, q: real, s: real, n: real, m: real) {
    d == q - 2.0 * m * s + n * m * m
  }

  lemma {:induction false} DeviationsExpand(xs: seq<real>, m: real)
    ensures Expands(SumSquaredDeviations(xs, m), SumSquares(xs), Sum(xs), |xs| as real, m)
  {
    if xs == [] {
      ExpandsNothing(m);
    } else {
      var init, x := xs[..|xs| - 1], xs[|xs| - 1];
      DeviationsExpand(init, m);
      SquareStep(SumSquaredDeviations(init, m), SumSquares(init), Sum(init), |init| as real, m, x,
                 SumSquaredDeviations(xs, m), SumSquares(xs), Sum(xs), |xs| as real);
    }
  }

  lemma ExpandsNothing(m: real)
    ensures Expands(0.0, 0.0, 0.0, 0.0, m)
  {}

  lemma SquareStep(d: real, q: real, s: real, n: real, m: real, x: real, d': real, q': real, s': real, n': real)
    requires Expands(d, q, s, n, m)
    requires d' == d + Square(x - m) && q' == q + Square(x) && s' == s + x && n' == n + 1.0
    ensures Expands(d', q', s', n', m)
  {
    assert (x - m) * (x - m) == x * x - 2.0 * m * x + m * m;
    assert m * s' == m * s + m * x;
    assert n' * m * m == n * m * m + m * m;
  }

  lemma Products(a: real, b: real)
    requires a >= 0.0 && b > 0.0
    ensures a * b >= 0.0 && (a * b == 0.0 <==> a == 0.0)
  {}

  lemma SquareSign(d: real)
    ensures d * d >= 0.0 && (d * d == 0.0 <==> d == 0.0)
  {
    if d > 0.0 { Products(d, d); }
    if d < 0.0 { Products(-d, -d); }
  }

  lemma MeanTimesCount(xs: seq<real>)
    requires xs != []
    ensures Mean(xs) * |xs| as real == Sum(xs)
  {}

  /** The one-pass form is the mean squared deviation, so clamping it at zero changes nothing. */
  lemma OnePassVariance(xs: seq<real>)
    requires xs != []
    ensures SumSquares(xs) / |xs| as real - Mean(xs) * Mean(xs) == Variance(xs) >= 0.0
  {
    DeviationsExpand(xs, Mean(xs));
    OnePassScalars(SumSquaredDeviations(xs, Mean(xs)), SumSquares(xs), Sum(xs), |xs| as real, Mean(xs));
  }

  lemma OnePassScalars(d: real, q: real, s: real, n: real, m: real)
    requires n > 0.0 && m == s / n && Expands(d, q, s, n, m)
    ensures q / n - m * m == d / n
  {
    assert m * n == s;
    assert m * s == n * m * m;
    Divided(d, q, n, m);
  }

  lemma Divided(d: real, q: real, n: real, m: real)
    requires n > 0.0 && d == q - n * m * m
    ensures q / n - m * m == d / n
  {
    var a, b := q / n, d / n;
    assert a * n == q && b * n == d;
    assert (a - m * m) * n == b * n;
  }

  lemma {:induction false} NoDeviation(xs: seq<real>, m: real)
    ensures SumSquaredDeviations(xs, m) == 0.0 <==> forall i :: 0 <= i < |xs| ==> xs[i] == m
  {
    if xs != [] {
      var init, x := xs[..|xs| - 1], xs[|xs| - 1];
      NoDeviation(init, m);
      SquareSign(x - m);
      if forall i :: 0 <= i < |init| ==> init[i] == m {
        assert forall i :: 0 <= i < |xs| ==> xs[i] == (if i < |init| then init[i] else x);
      } else {
        var i :| 0 <= i < |init| && init[i] != m;
        assert xs[i] != m;
      }
    }
  }

  lemma {:induction false} SumOfEqual(xs: seq<real>, c: real)
    requires forall i :: 0 <= i < |xs| ==> xs[i] == c
    ensures Sum(xs) == |xs| as real * c
  {
    if xs != [] {
      SumOfEqual(xs[..|xs| - 1], c);
      assert |xs| as real == |xs[..|xs| - 1]| as real + 1.0;
    }
  }

  lemma MeanOfEqual(xs: seq<real>, c: real)
    requires xs != [] && forall i :: 0 <= i < |xs| ==> xs[i] == c
    ensures Mean(xs) == c && AllEqual(xs)
  {
    SumOfEqual(xs, c);
    MeanTimesCount(xs);
    Cancel(Mean(xs), c, |xs| as real);
  }

  lemma ZeroVarianceExactly(xs: seq<real>)
    requires xs != []
    ensures Variance(xs) == 0.0 <==> AllEqual(xs)
  {
    NoDeviation(xs, Mean(xs));
    if AllEqual(xs) { MeanOfEqual(xs, xs[0]); }
    ZeroQuotient(SumSquaredDeviations(xs, Mean(xs)), |xs| as real);
  }

  lemma Cancel(a: real, b: real, n: real)
    requires n > 0.0 && a * n == n * b
    ensures a == b
  {
    assert (a - b) * n == 0.0;
  }

  lemma ZeroQuotient(d: real, n: real)
    requires n > 0.0
    ensures d / n == 0.0 <==> d == 0.0
  {
    assert d / n * n == d;
  }

  lemma {:induction false} SquaresWithinSquare(xs: seq<real>)
    requires NonNegative(xs)
    ensures Sum(xs) >= 0.0 && SumSquares(xs) <= Sum(xs) * Sum(xs)
  {
    if xs != [] {
      var init, x := xs[..|xs| - 1], xs[|xs| - 1];
      SquaresWithinSquare(init);
      assert Sum(init) * x >= 0.0;
    }
  }

  /** Of n non-negative intervals the variance is at most (n - 1) times the squared mean. */
  lemma VarianceBounded(xs: seq<real>, k: nat)
    requires |xs| == k + 1 && NonNegative(xs)
    ensures Variance(xs) <= k as real * Mean(xs) * Mean(xs)
  {
    var n, m, v := |xs| as real, Mean(xs), Variance(xs);
    OnePassVariance(xs);
    SquaresWithinSquare(xs);
    MeanTimesCount(xs);
    assert SumSquares(xs) / n <= n * m * m by {
      var q := SumSquares(xs) / n;
      assert q * n <= (m * n) * (m * n);
      assert (n * m * m - q) * n >= 0.0;
    }
    assert k as real == n - 1.0;
    assert n * m * m - m * m == (n - 1.0) * m * m;
  }
}

module Beaconing {
  import opened Basics
  import opened Statistics

  /** `later.duration_since(earlier)`, zero when the order is reversed. */
  function Elapsed(later: real, earlier: real): (d: real)
    ensures d >= 0.0
  {
    if later >= earlier then later - earlier else 0.0
  }

  function Intervals(ts: seq<real>): (xs: seq<real>)
    requires |ts| >= 2
    ensures |xs| == |ts| - 1 && NonNegative(xs)
  {
    seq(|ts| - 1, i requires 0 <= i < |ts| - 1 => Elapsed(ts[i + 1], ts[i]))
  }

  ghost predicate IsSqrt(sqrt: real -> real) {
    forall x: real :: x >= 0.0 ==> sqrt(x) >= 0.0 && sqrt(x) * sqrt(x) == x
  }

  /** The coefficient of variation by its definition; `huge` where there is none. */
  function Cv(sqrt: real -> real, huge: real, ts: seq<real>): (cv: real) {
    if |ts| < 2 || Mean(Intervals(ts)) <= 0.0 then huge
    else sqrt(Variance(Intervals(ts))) / Mean(Intervals(ts))
  }

  /** The one-pass loop computes the coefficient of variation. */
  method ComputeCv(sqrt: real -> real, huge: real, ts: seq<real>) returns (cv: real)
    ensures cv == Cv(sqrt, huge, ts)
  {
    if |ts| < 2 { return huge; }
    var sum, sumSq, n := Accumulate(ts);
    var mean := sum / n;
    if mean <= 0.0 { return huge; }
    var variance := sumSq / n - mean * mean;
    OnePassVariance(Intervals(ts));
    assert mean == Mean(Intervals(ts));
    assert variance == Variance(Intervals(ts));
    variance := if variance > 0.0 then variance else 0.0;
    cv := sqrt(variance) / mean;
  }

  method Accumulate(ts: seq<real>) returns (sum: real, sumSq: real, n: real)
    requires |ts| >= 2
    ensures var xs := Intervals(ts); sum == Sum(xs) && sumSq == SumSquares(xs) && n == |xs| as real
  {
    sum, sumSq := 0.0, 0.0;
    var count := 0;
    ghost var xs := Intervals(ts);
    for i := 1 to |ts|
      invariant count == i - 1
      invariant sum == Sum(xs[..count]) && sumSq == SumSquares(xs[..count])
    {
      var interval := Elapsed(ts[i], ts[i - 1]);
      assert xs[..count + 1][..count] == xs[..count] && xs[..count + 1][count] == interval;
      sum := sum + interval;
      sumSq := sumSq + interval * interval;
      count := count + 1;
    }
    assert xs[..count] == xs;
    n := count as real;
  }

  /** Never negative, zero exactly for equal intervals, and its square at most the number of
      intervals less one. */
  ghost predicate MeasuresSpread(cv: real, xs: seq<real>) {
    cv >= 0.0 && (cv == 0.0 <==> AllEqual(xs)) && cv * cv <= (|xs| - 1) as real
  }

  /** What the coefficient of variation says wherever the mean interval is positive. */
  lemma CvMeaning(sqrt: real -> real, huge: real, ts: seq<real>)
    requires IsSqrt(sqrt) && |ts| >= 2 && Mean(Intervals(ts)) > 0.0
    ensures MeasuresSpread(Cv(sqrt, huge, ts), Intervals(ts))
  {
    CvOfIntervals(sqrt, Intervals(ts), |ts| - 2, Variance(Intervals(ts)), Mean(Intervals(ts)));
  }

  lemma CvOfIntervals(sqrt: real -> real, xs: seq<real>, k: nat, v: real, m: real)
    requires IsSqrt(sqrt) && |xs| == k + 1 && NonNegative(xs) && v == Variance(xs) && m == Mean(xs) && m > 0.0
    ensures MeasuresSpread(sqrt(v) / m, xs)
  {
    ZeroVarianceExactly(xs);
    VarianceBounded(xs, k);
    RatioMeaning(sqrt(v), v, m, k as real);
  }

  lemma RatioMeaning(std: real, v: real, m: real, k: real)
    requires std >= 0.0 && m > 0.0 && std * std == v <= k * m * m
    ensures std / m >= 0.0 && (std / m == 0.0 <==> v == 0.0) && (std / m) * (std / m) <= k
  {
    var c := std / m;
    assert c * m == std;
    SquareSign(std);
    QuotientSign(std, m);
    Products(m, m);
    assert (c * c) * (m * m) == v;
    if c * c > k { Products(c * c - k, m * m); }
  }

  lemma QuotientSign(a: real, b: real)
    requires a >= 0.0 && b > 0.0
    ensures a / b >= 0.0 && (a / b == 0.0 <==> a == 0.0)
  {
    var q := a / b;
    assert q * b == a;
    if q < 0.0 { Products(-q, b); }
    if q > 0.0 { Products(q, b); }
  }

  // ----- the detector -----

  datatype Key = Key(srcIp: string, dstIp: string, protocol: nat, dstPort: nat)

  datatype Flow = Flow(timestamps: seq<real>, lastAlerted: Option<real>)

  type State = map<Key, Flow>

  datatype Params = Params(
    minObservations: nat, threshold: real, maxEntries: nat, maxTimestamps: nat, expiry: real, cooldown: real,
    sqrt: real -> real, huge: real)
  {
    /** A finite threshold is at most `f64::MAX`. */
    ghost predicate Valid() {
      IsSqrt(sqrt) && threshold <= huge
    }

    /** What `BeaconingConfig::validate` asks for, so that a flow can alert at all. */
    predicate CanAlert() {
      threshold > 0.0 && maxTimestamps > 1 && minObservations <= maxTimestamps
    }
  }

  datatype Event = Event(key: Key, confidence: real, packetCount: nat)

  function Confidence(p: Params, cv: real): (c: real)
    requires p.threshold != 0.0
  {
    (1.0 - cv / p.threshold) * 0.5 + 0.5
  }

  predicate Ripe(p: Params, f: Flow, now: real) {
    && |f.timestamps| >= p.minObservations
    && !(f.lastAlerted.Some? && Elapsed(now, f.lastAlerted.value) < p.cooldown)
    && Cv(p.sqrt, p.huge, f.timestamps) < p.threshold
  }

  /** A ripe flow has at least two instants that differ, and a positive threshold. */
  lemma RipeHasCv(p: Params, f: Flow, now: real)
    requires p.Valid() && Ripe(p, f, now)
    ensures |f.timestamps| >= 2 && Mean(Intervals(f.timestamps)) > 0.0
    ensures 0.0 <= Cv(p.sqrt, p.huge, f.timestamps) < p.threshold
  {
    CvMeaning(p.sqrt, p.huge, f.timestamps);
  }

  lemma QuotientBelowOne(a: real, b: real)
    requires 0.0 <= a < b
    ensures 0.0 <= a / b < 1.0 && (a / b == 0.0 <==> a == 0.0)
  {
    var q := a / b;
    assert q * b == a;
    QuotientSign(a, b);
    if q >= 1.0 { Products(q - 1.0, b); }
  }

  /** Every emitted confidence is in (0.5, 1], and is 1 exactly for perfectly regular flows. */
  lemma ConfidenceInRange(p: Params, f: Flow, now: real)
    requires p.Valid() && Ripe(p, f, now)
    ensures p.threshold > 0.0
    ensures var c := Confidence(p, Cv(p.sqrt, p.huge, f.timestamps));
            0.5 < c <= 1.0 && |f.timestamps| >= 2 && (c == 1.0 <==> AllEqual(Intervals(f.timestamps)))
  {
    RipeHasCv(p, f, now);
    CvMeaning(p.sqrt, p.huge, f.timestamps);
    QuotientBelowOne(Cv(p.sqrt, p.huge, f.timestamps), p.threshold);
  }

  lemma SmallerSquare(a: real, b: real)
    requires a >= 0.0 && b > 0.0
    ensures a < b <==> a * a < b * b
  {
    assert b * b - a * a == (b - a) * (b + a);
    if a < b { Products(b - a, b + a); } else { Products(a - b, b + a); }
  }

  lemma RatioBelow(std: real, m: real, th: real)
    requires std >= 0.0 && m > 0.0 && th > 0.0
    ensures std / m < th <==> std * std < (th * m) * (th * m)
  {
    var c := std / m;
    assert c * m == std;
    Products(th, m);
    SmallerSquare(std, th * m);
    if c < th { Products(th - c, m); } else { Products(c - th, m); }
  }

  /** In plain terms, without the square root: a flow is ripe exactly when it has two packets and the
      configured number, has been quiet for the cooldown, and the mean squared deviation of its
      intervals is below the squared mean times the squared threshold. */
  lemma RipeExactly(p: Params, f: Flow, now: real)
    requires p.Valid() && p.threshold > 0.0 && (f.lastAlerted.Some? ==> f.lastAlerted.value <= now)
    ensures Ripe(p, f, now) <==>
            && |f.timestamps| >= 2 && |f.timestamps| >= p.minObservations
            && (f.lastAlerted.Some? ==> now >= f.lastAlerted.value + p.cooldown)
            && var xs := Intervals(f.timestamps);
               Mean(xs) > 0.0 && Variance(xs) < (p.threshold * Mean(xs)) * (p.threshold * Mean(xs))
  {
    if |f.timestamps| >= 2 && Mean(Intervals(f.timestamps)) > 0.0 {
      var xs := Intervals(f.timestamps);
      CvBelow(p.sqrt, Variance(xs), Mean(xs), p.threshold);
    }
  }

  lemma CvBelow(sqrt: real -> real, v: real, m: real, th: real)
    requires IsSqrt(sqrt) && v >= 0.0 && m > 0.0 && th > 0.0
    ensures sqrt(v) / m < th <==> v < (th * m) * (th * m)
  {
    RatioBelow(sqrt(v), m, th);
  }

  function Latest(ts: seq<real>, n: nat): (r: seq<real>)
    ensures |r| <= n
  {
    if |ts| > n then ts[|ts| - n..] else ts
  }

  function Recorded(p: Params, f: Option<Flow>, now: real): (r: Flow) {
    var was := if f.Some? then f.value else Flow([], None);
    was.(timestamps := Latest(was.timestamps + [now], p.maxTimestamps))
  }

  function Find(s: State, k: Key): (f: Option<Flow>) {
    if k in s then Some(s[k]) else None
  }

  function Analyzed(p: Params, s: State, now: real): (r: State) {
    map k | k in s :: if Ripe(p, s[k], now) then s[k].(lastAlerted := Some(now)) else s[k]
  }

  predicate Live(p: Params, f: Flow, now: real) {
    f.timestamps != [] && Elapsed(now, f.timestamps[|f.timestamps| - 1]) < p.expiry
  }

  function Unexpired(p: Params, s: State, now: real): (r: State) {
    map k | k in s && Live(p, s[k], now) :: s[k]
  }

  /** Cleanup drops expired flows, then as many others as exceed the cap. */
  ghost predicate EvictsExcess(p: Params, s: State, now: real, evicted: set<Key>) {
    var kept := Unexpired(p, s, now);
    evicted <= kept.Keys && |evicted| == if |kept| > p.maxEntries then |kept| - p.maxEntries else 0
  }

  /** The event of a ripe flow. */
  ghost predicate Reports(p: Params, s: State, now: real, e: Event) {
    && e.key in s && Ripe(p, s[e.key], now) && p.threshold != 0.0
    && e.confidence == Confidence(p, Cv(p.sqrt, p.huge, s[e.key].timestamps))
    && e.packetCount == |s[e.key].timestamps|
  }

  ghost predicate HasKey(events: seq<Event>, k: Key) {
    exists i :: 0 <= i < |events| && events[i].key == k
  }

  /** One event for each ripe flow among `keys`, and no other. */
  ghost predicate ReportsOf(p: Params, s: State, now: real, keys: set<Key>, events: seq<Event>) {
    && (forall i :: 0 <= i < |events| ==> Reports(p, s, now, events[i]) && events[i].key in keys)
    && (forall i, j :: 0 <= i < j < |events| ==> events[i].key != events[j].key)
    && (forall k :: k in keys && IsRipe(p, s, now, k) ==> HasKey(events, k))
  }

  ghost predicate IsRipe(p: Params, s: State, now: real, k: Key) {
    k in s && Ripe(p, s[k], now)
  }

  lemma ReportsMore(p: Params, s: State, now: real, keys: set<Key>, events: seq<Event>, k: Key, e: Event)
    requires ReportsOf(p, s, now, keys, events) && k !in keys && k in s
    requires IsRipe(p, s, now, k) && e.key == k && Reports(p, s, now, e)
    ensures ReportsOf(p, s, now, keys + {k}, events + [e])
  {
    var more := events + [e];
    forall q | q in keys + {k} && IsRipe(p, s, now, q) ensures HasKey(more, q) {
      if q == k {
        assert more[|events|].key == k;
      } else {
        var i :| 0 <= i < |events| && events[i].key == q;
        assert more[i].key == q;
      }
    }
  }

  class BeaconingState {
    const params: Params
    var flows: State

    constructor (params: Params)
      ensures this.params == params && flows == map[]
    {
      this.params := params;
      flows := map[];
    }

    method RecordFlow(k: Key, now: real)
      modifies this
      ensures flows == old(flows)[k := Recorded(params, Find(old(flows), k), now)]
    {
      var entry := if k in flows then flows[k] else Flow([], None);
      entry := entry.(timestamps := entry.timestamps + [now]);
      if |entry.timestamps| > params.maxTimestamps {
        var excess := |entry.timestamps| - params.maxTimestamps;
        entry := entry.(timestamps := entry.timestamps[excess..]);
      }
      flows := flows[k := entry];
    }

    /** One event for each ripe flow, whose cooldown starts now; nothing else changes. */
    method Analyze(now: real) returns (events: seq<Event>)
      requires params.Valid()
      modifies this
      ensures ReportsOf(params, old(flows), now, old(flows).Keys, events)
      ensures flows == Analyzed(params, old(flows), now)
      ensures forall i :: 0 <= i < |events| ==> 0.5 < events[i].confidence <= 1.0
    {
      events := Candidates(now);
      forall i | 0 <= i < |events| ensures 0.5 < events[i].confidence <= 1.0 {
        assert Reports(params, flows, now, events[i]);
        ConfidenceInRange(params, flows[events[i].key], now);
      }
      for i := 0 to |events|
        invariant flows == Alerted(old(flows), now, events[..i])
      {
        assert events[..i + 1][..i] == events[..i];
        AlertedKeys(old(flows), now, events[..i]);
        if events[i].key in flows {
          flows := flows[events[i].key := flows[events[i].key].(lastAlerted := Some(now))];
        }
      }
      assert events[..|events|] == events;
      AlertedAll(params, old(flows), now, events);
    }

    method Candidates(now: real) returns (events: seq<Event>)
      requires params.Valid()
      ensures ReportsOf(params, flows, now, flows.Keys, events)
    {
      events := [];
      var left := flows.Keys;
      ghost var done: set<Key> := {};
      while left != {}
        invariant left !! done && left + done == flows.Keys
        invariant ReportsOf(params, flows, now, done, events)
        decreases |left|
      {
        var k :| k in left;
        var e := Examine(k, now);
        if e.Some? {
          ReportsMore(params, flows, now, done, events, k, e.value);
          events := events + [e.value];
        }
        left := left - {k};
        done := done + {k};
      }
    }

    method Examine(k: Key, now: real) returns (e: Option<Event>)
      requires params.Valid() && k in flows
      ensures e.Some? <==> IsRipe(params, flows, now, k)
      ensures e.Some? ==> e.value.key == k && Reports(params, flows, now, e.value)
    {
      var flow := flows[k];
      if |flow.timestamps| < params.minObservations { return None; }
      if flow.lastAlerted.Some? && Elapsed(now, flow.lastAlerted.value) < params.cooldown { return None; }
      var cv := ComputeCv(params.sqrt, params.huge, flow.timestamps);
      if cv < params.threshold {
        RipeHasCv(params, flow, now);
        e := Some(Event(k, Confidence(params, cv), |flow.timestamps|));
      } else {
        e := None;
      }
    }

    method Cleanup(now: real) returns (ghost evicted: set<Key>)
      modifies this
      ensures flows == Unexpired(params, old(flows), now) - evicted
      ensures EvictsExcess(params, old(flows), now, evicted)
    {
      flows := Unexpired(params, flows, now);
      evicted := EvictExcess();
    }

    /** Drops arbitrary entries while there are too many. */
    method EvictExcess() returns (ghost evicted: set<Key>)
      modifies this
      ensures flows == old(flows) - evicted && evicted <= old(flows).Keys
      ensures |evicted| == if |old(flows)| > params.maxEntries then |old(flows)| - params.maxEntries else 0
    {
      evicted := {};
      while |flows| > params.maxEntries
        invariant flows == old(flows) - evicted && evicted <= old(flows).Keys && |flows| == |old(flows)| - |evicted|
        invariant |evicted| <= if |old(flows)| > params.maxEntries then |old(flows)| - params.maxEntries else 0
        decreases |flows|
      {
        var k :| k in flows.Keys;
        DropOne(old(flows), evicted, k);
        flows := flows - {k};
        evicted := evicted + {k};
      }
    }
  }

  lemma DropOne(s: State, gone: set<Key>, k: Key)
    requires k in s - gone
    ensures k in s && s - gone - {k} == s - (gone + {k}) && |s - gone - {k}| == |s - gone| - 1
  {
    assert (s - gone).Keys == (s - gone - {k}).Keys + {k};
  }

  function Alerted(s: State, now: real, events: seq<Event>): (r: State) {
    if events == [] then s
    else
      var before := Alerted(s, now, events[..|events| - 1]);
      var k := events[|events| - 1].key;
      if k in before then before[k := before[k].(lastAlerted := Some(now))] else before
  }

  lemma {:induction false} AlertedKeys(s: State, now: real, events: seq<Event>)
    ensures Alerted(s, now, events).Keys == s.Keys
  {
    if events != [] { AlertedKeys(s, now, events[..|events| - 1]); }
  }

  lemma {:induction false} AlertedAt(s: State, now: real, events: seq<Event>, k: Key)
    requires k in s
    ensures k in Alerted(s, now, events)
    ensures Alerted(s, now, events)[k] == if HasKey(events, k) then s[k].(lastAlerted := Some(now)) else s[k]
  {
    if events != [] {
      var init, last := events[..|events| - 1], events[|events| - 1];
      AlertedAt(s, now, init, k);
      assert HasKey(events, k) <==> HasKey(init, k) || last.key == k by {
        if HasKey(init, k) {
          var i :| 0 <= i < |init| && init[i].key == k;
          assert events[i].key == k;
        }
        if last.key == k { assert events[|events| - 1].key == k; }
      }
    }
  }

  lemma AlertedAll(p: Params, s: State, now: real, events: seq<Event>)
    requires ReportsOf(p, s, now, s.Keys, events)
    ensures Alerted(s, now, events) == Analyzed(p, s, now)
  {
    AlertedKeys(s, now, events);
    forall k | k in s ensures Alerted(s, now, events)[k] == Analyzed(p, s, now)[k] {
      AlertedAt(s, now, events, k);
      assert IsRipe(p, s, now, k) <==> Ripe(p, s[k], now);
      if HasKey(events, k) {
        var i :| 0 <= i < |events| && events[i].key == k;
        assert Reports(p, s, now, events[i]);
      }
    }
  }

  // ----- the cooldown over runs -----

  datatype Op = Record(key: Key, now: real) | Analyze(now: real) | Cleanup(now: real, evicted: set<Key>)

  function Next(p: Params, s: State, op: Op): (r: State) {
    match op
    case Record(k, now) => s[k := Recorded(p, Find(s, k), now)]
    case Analyze(now) => Analyzed(p, s, now)
    case Cleanup(now, evicted) => Unexpired(p, s, now) - evicted
  }

  /** When the run raises alerts for one key. */
  function History(p: Params, s: State, ops: seq<Op>, k: Key): (h: seq<real>)
    decreases |ops|
  {
    if ops == [] then []
    else
      (if ops[0].Analyze? && k in s && Ripe(p, s[k], ops[0].now) then [ops[0].now] else [])
      + History(p, Next(p, s, ops[0]), ops[1..], k)
  }

  // ----- one key of a run -----

  /** The cleanup drops the flow: evicted, or its last packet is too old. */
  predicate Forgets(p: Params, f: Option<Flow>, op: Op, k: Key) {
    op.Cleanup? && f.Some? && (k in op.evicted || !Live(p, f.value, op.now))
  }

  predicate Alerts(p: Params, f: Option<Flow>, op: Op) {
    op.Analyze? && f.Some? && Ripe(p, f.value, op.now)
  }

  function KeyNext(p: Params, f: Option<Flow>, op: Op, k: Key): (r: Option<Flow>) {
    if op.Record? && op.key == k then Some(Recorded(p, f, op.now))
    else if Alerts(p, f, op) then Some(f.value.(lastAlerted := Some(op.now)))
    else if Forgets(p, f, op, k) then None
    else f
  }

  function KeyHistory(p: Params, f: Option<Flow>, ops: seq<Op>, k: Key): (h: seq<real>)
    decreases |ops|
  {
    if ops == [] then []
    else (if Alerts(p, f, ops[0]) then [ops[0].now] else []) + KeyHistory(p, KeyNext(p, f, ops[0], k), ops[1..], k)
  }

  /** A step changes a key as if it were alone; a cleanup forgets it exactly when it is evicted or
      its last packet is older than the expiry. */
  lemma KeyIsAlone(p: Params, s: State, op: Op, k: Key)
    ensures Find(Next(p, s, op), k) == KeyNext(p, Find(s, k), op, k)
    ensures k in s ==> (k !in Next(p, s, op) <==> Forgets(p, Find(s, k), op, k))
  {}

  lemma {:induction false} HistoryOfKey(p: Params, s: State, ops: seq<Op>, k: Key)
    ensures History(p, s, ops, k) == KeyHistory(p, Find(s, k), ops, k)
    decreases |ops|
  {
    if ops != [] {
      KeyIsAlone(p, s, ops[0], k);
      HistoryOfKey(p, Next(p, s, ops[0]), ops[1..], k);
    }
  }

  /** When the packets of `k` came. */
  function PacketTimes(ops: seq<Op>, k: Key): (ts: seq<real>) {
    if ops == [] then []
    else
      var last := ops[|ops| - 1];
      PacketTimes(ops[..|ops| - 1], k) + if last.Record? && last.key == k then [last.now] else []
  }

  function KeyRun(p: Params, f: Option<Flow>, ops: seq<Op>, k: Key): (r: Option<Flow>) {
    if ops == [] then f else KeyNext(p, KeyRun(p, f, ops[..|ops| - 1], k), ops[|ops| - 1], k)
  }

  /** No cleanup of the run forgets the key. */
  predicate Kept(p: Params, f: Option<Flow>, ops: seq<Op>, k: Key) {
    ops != [] ==>
      var before := ops[..|ops| - 1];
      Kept(p, f, before, k) && !Forgets(p, KeyRun(p, f, before, k), ops[|ops| - 1], k)
  }

  lemma LatestAgain(ts: seq<real>, t: real, n: nat)
    ensures Latest(Latest(ts, n) + [t], n) == Latest(ts + [t], n)
  {}

  lemma LatestIsSuffix(ts: seq<real>, n: nat)
    ensures Latest(ts, n) == ts[|ts| - Min(|ts|, n)..]
  {}

  lemma {:induction false} FlowHoldsLatest(p: Params, ops: seq<Op>, k: Key)
    requires Kept(p, None, ops, k)
    ensures var f, ts := KeyRun(p, None, ops, k), PacketTimes(ops, k);
            (f.None? <==> ts == []) && (f.Some? ==> f.value.timestamps == Latest(ts, p.maxTimestamps))
  {
    if ops != [] {
      var before, op := ops[..|ops| - 1], ops[|ops| - 1];
      FlowHoldsLatest(p, before, k);
      var f, ts := KeyRun(p, None, before, k), PacketTimes(before, k);
      if op.Record? && op.key == k {
        LatestAgain(ts, op.now, p.maxTimestamps);
      } else {
        assert ts + [] == ts;
      }
    }
  }

  /** A flow that is not forgotten holds its last packets, as many as the cap allows. */
  lemma FlowHoldsItsPackets(p: Params, ops: seq<Op>, k: Key)
    requires Kept(p, None, ops, k)
    ensures var f, ts := KeyRun(p, None, ops, k), PacketTimes(ops, k);
            && (f.None? <==> ts == [])
            && (f.Some? ==> f.value.timestamps == ts[|ts| - Min(|ts|, p.maxTimestamps)..])
  {
    FlowHoldsLatest(p, ops, k);
    LatestIsSuffix(PacketTimes(ops, k), p.maxTimestamps);
  }

  // ----- when the cooldown holds, exactly -----

  predicate Cooling(p: Params, f: Option<Flow>, now: real) {
    f.Some? && f.value.lastAlerted.Some? && Elapsed(now, f.value.lastAlerted.value) < p.cooldown
  }

  predicate Timed(ops: seq<Op>, clock: real)
    decreases |ops|
  {
    ops != [] ==> clock <= ops[0].now && Timed(ops[1..], ops[0].now)
  }

  /** No cleanup of the run forgets the key while it is cooling down. */
  predicate Spares(p: Params, f: Option<Flow>, ops: seq<Op>, k: Key)
    decreases |ops|
  {
    ops != [] ==>
      !(Cooling(p, f, ops[0].now) && Forgets(p, f, ops[0], k)) && Spares(p, KeyNext(p, f, ops[0], k), ops[1..], k)
  }

  /** Successive alerts, the first one after `last`, are a cooldown apart. */
  predicate Spaced(p: Params, last: Option<real>, h: seq<real>)
    decreases |h|
  {
    h != [] ==> (last.Some? ==> Elapsed(h[0], last.value) >= p.cooldown) && Spaced(p, Some(h[0]), h[1..])
  }

  /** The flow remembers the key's last alert, or that alert is a cooldown old. */
  predicate Remembers(p: Params, f: Option<Flow>, last: Option<real>, clock: real) {
    && (f.Some? && f.value.lastAlerted.Some? ==> f.value.lastAlerted == last)
    && (last.Some? ==> last.value <= clock && ((f.Some? && f.value.lastAlerted == last) || Elapsed(clock, last.value) >= p.cooldown))
  }

  function LastAfter(p: Params, f: Option<Flow>, op: Op, last: Option<real>): (r: Option<real>) {
    if Alerts(p, f, op) then Some(op.now) else last
  }

  lemma RemembersStep(p: Params, f: Option<Flow>, op: Op, k: Key, last: Option<real>, clock: real)
    requires Remembers(p, f, last, clock) && clock <= op.now && !(Cooling(p, f, op.now) && Forgets(p, f, op, k))
    ensures Remembers(p, KeyNext(p, f, op, k), LastAfter(p, f, op, last), op.now)
    ensures Alerts(p, f, op) && last.Some? ==> Elapsed(op.now, last.value) >= p.cooldown
  {}

  /** In every run with a forward clock whose cleanups forget no key while it is cooling down,
      alerts of a key are at least a cooldown apart. */
  lemma {:induction false} AlertsAreSpaced(p: Params, f: Option<Flow>, ops: seq<Op>, k: Key, last: Option<real>, clock: real)
    requires Remembers(p, f, last, clock) && Timed(ops, clock) && Spares(p, f, ops, k)
    ensures Spaced(p, last, KeyHistory(p, f, ops, k))
    decreases |ops|
  {
    if ops != [] {
      var next := KeyNext(p, f, ops[0], k);
      var h := KeyHistory(p, next, ops[1..], k);
      RemembersStep(p, f, ops[0], k, last, clock);
      AlertsAreSpaced(p, next, ops[1..], k, LastAfter(p, f, ops[0], last), ops[0].now);
      if Alerts(p, f, ops[0]) { assert ([ops[0].now] + h)[1..] == h; } else { assert [] + h == h; }
    }
  }

  /** From here on the cooldown holds whatever happens, as long as later cleanups spare it. */
  ghost predicate Unbreakable(p: Params, f: Option<Flow>, k: Key, last: Option<real>, clock: real) {
    forall ops :: Timed(ops, clock) && Spares(p, f, ops, k) ==> Spaced(p, last, KeyHistory(p, f, ops, k))
  }

  /** The `i`-th of packets that are `dt` apart. */
  function At(start: real, dt: real, i: nat): (t: real) {
    if i == 0 then start else At(start, dt, i - 1) + dt
  }

  lemma {:induction false} AtIs(start: real, dt: real, i: nat)
    ensures At(start, dt, i) == start + i as real * dt
  {
    if i > 0 {
      AtIs(start, dt, i - 1);
      Distribute((i - 1) as real, dt);
      assert (i - 1) as real + 1.0 == i as real;
    }
  }

  lemma Distribute(a: real, b: real)
    ensures (a + 1.0) * b == a * b + b
  {}

  function Regular(start: real, dt: real, n: nat): (ts: seq<real>)
    ensures |ts| == n
  {
    seq(n, i requires 0 <= i < n => At(start, dt, i))
  }

  /** The packets from number `i` up to `n`. */
  function Packets(k: Key, start: real, dt: real, i: nat, n: nat): (ops: seq<Op>)
    requires i <= n
    decreases n - i
  {
    if i == n then [] else [Record(k, At(start, dt, i))] + Packets(k, start, dt, i + 1, n)
  }

  /** The flow after `i` of them, from none before. */
  function Collected(start: real, dt: real, i: nat): (f: Option<Flow>) {
    if i == 0 then None else Some(Flow(Regular(start, dt, i), None))
  }

  lemma CollectOne(p: Params, k: Key, start: real, dt: real, i: nat)
    requires i < p.maxTimestamps
    ensures KeyNext(p, Collected(start, dt, i), Record(k, At(start, dt, i)), k) == Collected(start, dt, i + 1)
  {
    assert Regular(start, dt, i) + [At(start, dt, i)] == Regular(start, dt, i + 1);
  }

  /** Packets raise no alert, forget nothing, and leave their instants in the flow. */
  lemma {:induction false} PacketsCollect(p: Params, k: Key, start: real, dt: real, i: nat, n: nat, rest: seq<Op>)
    requires i <= n <= p.maxTimestamps
    ensures var f, ops := Collected(start, dt, i), Packets(k, start, dt, i, n) + rest;
            && KeyHistory(p, f, ops, k) == KeyHistory(p, Collected(start, dt, n), rest, k)
            && (Spares(p, Collected(start, dt, n), rest, k) ==> Spares(p, f, ops, k))
    decreases n - i
  {
    if i == n {
      assert [] + rest == rest;
    } else {
      var more := Packets(k, start, dt, i + 1, n) + rest;
      assert Packets(k, start, dt, i, n) + rest == [Record(k, At(start, dt, i))] + more;
      CollectOne(p, k, start, dt, i);
      PacketsCollect(p, k, start, dt, i + 1, n, rest);
      OneRecord(p, Collected(start, dt, i), k, At(start, dt, i), more);
    }
  }

  lemma OneRecord(p: Params, f: Option<Flow>, k: Key, t: real, rest: seq<Op>)
    ensures var ops, next := [Record(k, t)] + rest, KeyNext(p, f, Record(k, t), k);
            KeyHistory(p, f, ops, k) == KeyHistory(p, next, rest, k) && (Spares(p, f, ops, k) <==> Spares(p, next, rest, k))
  {
    assert ([Record(k, t)] + rest)[1..] == rest;
    assert [] + KeyHistory(p, KeyNext(p, f, Record(k, t), k), rest, k) == KeyHistory(p, KeyNext(p, f, Record(k, t), k), rest, k);
  }

  lemma {:induction false} PacketsTimed(k: Key, start: real, dt: real, i: nat, n: nat, rest: seq<Op>)
    requires i < n && dt >= 0.0 && Timed(rest, At(start, dt, n - 1))
    ensures Timed(Packets(k, start, dt, i, n) + rest, At(start, dt, i))
    decreases n - i
  {
    var more := Packets(k, start, dt, i + 1, n) + rest;
    assert Packets(k, start, dt, i, n) + rest == [Record(k, At(start, dt, i))] + more;
    if i + 1 == n {
      assert more == rest;
    } else {
      PacketsTimed(k, start, dt, i + 1, n, rest);
      Earlier(more, At(start, dt, i + 1), At(start, dt, i));
    }
    TimedOne(Record(k, At(start, dt, i)), more);
  }

  lemma TimedOne(op: Op, rest: seq<Op>)
    requires Timed(rest, op.now)
    ensures Timed([op] + rest, op.now)
  {
    assert ([op] + rest)[1..] == rest;
  }

  lemma Earlier(ops: seq<Op>, clock: real, before: real)
    requires Timed(ops, clock) && before <= clock
    ensures Timed(ops, before)
  {}

  /** Equally spaced packets are as regular as can be. */
  lemma RegularIsRipe(p: Params, start: real, dt: real, n: nat, last: Option<real>, now: real)
    requires p.Valid() && p.threshold > 0.0 && dt > 0.0 && n >= 2 && n >= p.minObservations
    requires !Cooling(p, Some(Flow(Regular(start, dt, n), last)), now)
    ensures Ripe(p, Flow(Regular(start, dt, n), last), now)
  {
    RegularMean(start, dt, n);
    CvMeaning(p.sqrt, p.huge, Regular(start, dt, n));
  }

  lemma RegularMean(start: real, dt: real, n: nat)
    requires n >= 2 && dt >= 0.0
    ensures AllEqual(Intervals(Regular(start, dt, n))) && Mean(Intervals(Regular(start, dt, n))) == dt
  {
    RegularIntervals(start, dt, n);
    MeanOfEqual(Intervals(Regular(start, dt, n)), dt);
  }

  lemma RegularIntervals(start: real, dt: real, n: nat)
    requires n >= 2 && dt >= 0.0
    ensures var xs := Intervals(Regular(start, dt, n)); forall i :: 0 <= i < |xs| ==> xs[i] == dt
  {
    var ts := Regular(start, dt, n);
    var xs := Intervals(ts);
    forall i | 0 <= i < |xs| ensures xs[i] == dt {
      assert ts[i + 1] == At(start, dt, i + 1) == At(start, dt, i) + dt;
    }
  }

  lemma AnalysisAlerts(p: Params, f: Option<Flow>, k: Key, at: real)
    requires f.Some? && Ripe(p, f.value, at)
    ensures KeyHistory(p, f, [Analyze(at)], k) == [at] && Spares(p, f, [Analyze(at)], k) && Timed([Analyze(at)], at)
  {
    assert [Analyze(at)][1..] == [];
  }

  /** A key forgotten during its cooldown alerts inside it when enough regular packets follow. */
  lemma ForgottenIsBreakable(p: Params, k: Key, last: real, now: real)
    requires p.Valid() && p.CanAlert() && last <= now < last + p.cooldown
    ensures !Unbreakable(p, None, k, Some(last), now)
  {
    var n: nat := if p.minObservations < 2 then 2 else p.minObservations;
    var dt := Split(last + p.cooldown - now, n);
    var at := At(now, dt, n);
    AtIs(now, dt, n);
    var analysis := [Analyze(at)];
    RegularIsRipe(p, now, dt, n, None, at);
    AnalysisAlerts(p, Collected(now, dt, n), k, at);
    PacketsCollect(p, k, now, dt, 0, n, analysis);
    Earlier(analysis, at, At(now, dt, n - 1));
    PacketsTimed(k, now, dt, 0, n, analysis);
    TooSoon(p, last, at);
    var ops := Packets(k, now, dt, 0, n) + analysis;
    assert Timed(ops, now) && Spares(p, None, ops, k) && KeyHistory(p, None, ops, k) == [at];
  }

  lemma TooSoon(p: Params, last: real, at: real)
    requires last <= at < last + p.cooldown
    ensures !Spaced(p, Some(last), [at])
  {}

  /** A step that `n` times over stays short of `room`. */
  lemma Split(room: real, n: nat) returns (dt: real)
    requires room > 0.0
    ensures dt > 0.0 && 0.0 <= n as real * dt < room
  {
    var m := n as real + 1.0;
    dt := room / m;
    assert dt * m == room;
    if dt <= 0.0 && dt < 0.0 { Products(-dt, m); }
    assert dt > 0.0;
    Distribute(n as real, dt);
    Products(n as real, dt);
  }

  /** A cleanup leaves the cooldown safe exactly when it does not forget the key during it. */
  lemma CleanupIsSafeExactly(p: Params, f: Option<Flow>, op: Op, k: Key, last: Option<real>, clock: real)
    requires p.Valid() && p.CanAlert() && op.Cleanup? && Remembers(p, f, last, clock) && clock <= op.now
    ensures Unbreakable(p, KeyNext(p, f, op, k), k, last, op.now) <==> !(Cooling(p, f, op.now) && Forgets(p, f, op, k))
  {
    if Cooling(p, f, op.now) && Forgets(p, f, op, k) {
      ForgottenIsBreakable(p, k, last.value, op.now);
    } else {
      RemembersStep(p, f, op, k, last, clock);
      RememberedIsUnbreakable(p, KeyNext(p, f, op, k), k, last, op.now);
    }
  }

  lemma RememberedIsUnbreakable(p: Params, f: Option<Flow>, k: Key, last: Option<real>, clock: real)
    requires Remembers(p, f, last, clock)
    ensures Unbreakable(p, f, k, last, clock)
  {
    forall ops | Timed(ops, clock) && Spares(p, f, ops, k) ensures Spaced(p, last, KeyHistory(p, f, ops, k)) {
      AlertsAreSpaced(p, f, ops, k, last, clock);
    }
  }

  ghost predicate AlwaysUnbreakable(p: Params, f: Option<Flow>, ops: seq<Op>, k: Key, last: Option<real>, clock: real)
    decreases |ops|
  {
    && Unbreakable(p, f, k, last, clock)
    && (ops != [] ==> AlwaysUnbreakable(p, KeyNext(p, f, ops[0], k), ops[1..], k, LastAfter(p, f, ops[0], last), ops[0].now))
  }

  /** Over every run: the cooldown of a key is safe at each point exactly when no cleanup evicts
      the key or finds its last packet too old while it is cooling down. */
  lemma {:induction false} CooldownIsSafeExactly(p: Params, f: Option<Flow>, ops: seq<Op>, k: Key, last: Option<real>, clock: real)
    requires p.Valid() && p.CanAlert() && Remembers(p, f, last, clock) && Timed(ops, clock)
    ensures AlwaysUnbreakable(p, f, ops, k, last, clock) <==> Spares(p, f, ops, k)
    decreases |ops|
  {
    RememberedIsUnbreakable(p, f, k, last, clock);
    if ops != [] {
      var op := ops[0];
      if Cooling(p, f, op.now) && Forgets(p, f, op, k) {
        CleanupIsSafeExactly(p, f, op, k, last, clock);
      } else {
        RemembersStep(p, f, op, k, last, clock);
        CooldownIsSafeExactly(p, KeyNext(p, f, op, k), ops[1..], k, LastAfter(p, f, op, last), op.now);
      }
    }
  }

  // ----- the same before the call: which flows an eviction picks is not known -----

  /** The key is not cooling down, or its last packet is recent and the cap evicts nothing. */
  ghost predicate RoomToClean(p: Params, s: State, k: Key, now: real) {
    !Cooling(p, Find(s, k), now) || (Live(p, s[k], now) && |Unexpired(p, s, now)| <= p.maxEntries)
  }

  /** Whatever the cap makes a cleanup evict now, the key's cooldown stays safe. */
  ghost predicate AnyCleanupIsSafe(p: Params, s: State, k: Key, now: real, last: Option<real>) {
    forall evicted :: EvictsExcess(p, s, now, evicted) ==>
      Unbreakable(p, KeyNext(p, Find(s, k), Cleanup(now, evicted), k), k, last, now)
  }

  lemma RoomSparesCooldown(p: Params, s: State, k: Key, now: real, evicted: set<Key>)
    requires RoomToClean(p, s, k, now) && EvictsExcess(p, s, now, evicted)
    ensures !(Cooling(p, Find(s, k), now) && Forgets(p, Find(s, k), Cleanup(now, evicted), k))
  {
    if |Unexpired(p, s, now)| <= p.maxEntries { assert evicted == {}; }
  }

  /** Without room, some eviction the cap allows forgets the cooling key. */
  lemma NoRoomForgets(p: Params, s: State, k: Key, now: real) returns (evicted: set<Key>)
    requires !RoomToClean(p, s, k, now)
    ensures EvictsExcess(p, s, now, evicted) && Cooling(p, Find(s, k), now) && Forgets(p, Find(s, k), Cleanup(now, evicted), k)
  {
    var kept := Unexpired(p, s, now);
    if |kept| <= p.maxEntries {
      evicted := {};
    } else if k in kept {
      evicted := SubsetWith(kept.Keys, k, |kept| - p.maxEntries);
    } else {
      var any :| any in kept.Keys;
      evicted := SubsetWith(kept.Keys, any, |kept| - p.maxEntries);
    }
  }

  /** A cleanup is safe for a key, whatever it evicts, exactly when the key is not cooling down or
      its last packet is within the expiry and the unexpired flows within the cap. */
  lemma AnyCleanupIsSafeExactly(p: Params, s: State, k: Key, now: real, last: Option<real>, clock: real)
    requires p.Valid() && p.CanAlert() && Remembers(p, Find(s, k), last, clock) && clock <= now
    ensures AnyCleanupIsSafe(p, s, k, now, last) <==> RoomToClean(p, s, k, now)
  {
    if RoomToClean(p, s, k, now) {
      forall evicted | EvictsExcess(p, s, now, evicted)
        ensures Unbreakable(p, KeyNext(p, Find(s, k), Cleanup(now, evicted), k), k, last, now)
      {
        RoomSparesCooldown(p, s, k, now, evicted);
        CleanupIsSafeExactly(p, Find(s, k), Cleanup(now, evicted), k, last, clock);
      }
    } else {
      var evicted := NoRoomForgets(p, s, k, now);
      CleanupIsSafeExactly(p, Find(s, k), Cleanup(now, evicted), k, last, clock);
    }
  }

  /** The cleanups of the run evict what the cap makes them evict. */
  ghost predicate Capped(p: Params, s: State, ops: seq<Op>)
    decreases |ops|
  {
    ops != [] ==>
      (ops[0].Cleanup? ==> EvictsExcess(p, s, ops[0].now, ops[0].evicted)) && Capped(p, Next(p, s, ops[0]), ops[1..])
  }

  ghost predicate AlwaysRoom(p: Params, s: State, ops: seq<Op>, k: Key)
    decreases |ops|
  {
    ops != [] ==>
      (ops[0].Cleanup? ==> RoomToClean(p, s, k, ops[0].now)) && AlwaysRoom(p, Next(p, s, ops[0]), ops[1..], k)
  }

  ghost predicate AnyCleanupAlwaysSafe(p: Params, s: State, ops: seq<Op>, k: Key, last: Option<real>)
    decreases |ops|
  {
    ops != [] ==>
      && (ops[0].Cleanup? ==> AnyCleanupIsSafe(p, s, k, ops[0].now, last))
      && AnyCleanupAlwaysSafe(p, Next(p, s, ops[0]), ops[1..], k, LastAfter(p, Find(s, k), ops[0], last))
  }

  /** Over every run: each cleanup is safe for the key whatever it evicts exactly when, before each,
      the key is not cooling down or its last packet is recent and the flows are within the cap. */
  lemma {:induction false} CooldownNeedsRoomExactly(p: Params, s: State, ops: seq<Op>, k: Key, last: Option<real>, clock: real)
    requires p.Valid() && p.CanAlert() && Remembers(p, Find(s, k), last, clock) && Timed(ops, clock) && Capped(p, s, ops)
    ensures AnyCleanupAlwaysSafe(p, s, ops, k, last) <==> AlwaysRoom(p, s, ops, k)
    ensures AlwaysRoom(p, s, ops, k) ==> Spares(p, Find(s, k), ops, k)
    decreases |ops|
  {
    if ops != [] {
      var op := ops[0];
      KeyIsAlone(p, s, op, k);
      if op.Cleanup? { AnyCleanupIsSafeExactly(p, s, k, op.now, last, clock); }
      if op.Cleanup? ==> RoomToClean(p, s, k, op.now) {
        if op.Cleanup? { RoomSparesCooldown(p, s, k, op.now, op.evicted); }
        RemembersStep(p, Find(s, k), op, k, last, clock);
        CooldownNeedsRoomExactly(p, Next(p, s, op), ops[1..], k, LastAfter(p, Find(s, k), op, last), op.now);
      }
    }
  }

  // ----- a run under the default settings -----

  /** The configured defaults. */
  function Defaults(sqrt: real -> real, huge: real): (p: Params) {
    Params(5, 0.3, 50000, 100, 600.0, 300.0, sqrt, huge)
  }

  /** The detector's ticks, 30 s apart: each analyses, then cleans up. */
  function Ticks(t: real, n: nat): (ops: seq<Op>)
    decreases n
  {
    if n == 0 then [] else [Analyze(t), Cleanup(t, {})] + Ticks(t + 30.0, n - 1)
  }

  /** The tick at 605, five packets a second apart from 606, and the tick at 635. */
  function LateSchedule(k: Key): (ops: seq<Op>) {
    Ticks(605.0, 1) + (Packets(k, 606.0, 1.0, 0, 5) + Ticks(635.0, 1))
  }

  /** Five packets a second apart from 0, ticks from 5 to 575, and the rest. */
  function Schedule(k: Key): (ops: seq<Op>) {
    Packets(k, 0.0, 1.0, 0, 5)
    + (Ticks(5.0, 1) + (Ticks(35.0, 9) + (Ticks(305.0, 1) + (Ticks(335.0, 9) + LateSchedule(k)))))
  }

  /** The flow of five packets a second apart from `start`, last alerted at `last`. */
  function Five(start: real, last: Option<real>): (f: Flow) {
    Flow(Regular(start, 1.0, 5), last)
  }

  lemma FiveLast(start: real, last: Option<real>)
    ensures |Five(start, last).timestamps| == 5 && Five(start, last).timestamps[4] == start + 4.0
  {
    AtIs(start, 1.0, 4);
  }

  /** The flow last alerted at `last`, and its last packet came at `seen`. */
  predicate Resting(f: Option<Flow>, last: real, seen: real) {
    && f.Some? && f.value.lastAlerted == Some(last)
    && f.value.timestamps != [] && f.value.timestamps[|f.value.timestamps| - 1] == seen
  }

  lemma QuietTick(p: Params, f: Option<Flow>, k: Key, last: real, seen: real, t: real)
    requires Resting(f, last, seen) && last <= t < last + p.cooldown && seen <= t < seen + p.expiry
    ensures !Alerts(p, f, Analyze(t)) && KeyNext(p, f, Analyze(t), k) == f && KeyNext(p, f, Cleanup(t, {}), k) == f
  {}

  /** Ticks inside the cooldown, and before expiry, change nothing. */
  lemma {:induction false} QuietTicks(p: Params, f: Option<Flow>, k: Key, last: real, seen: real, t: real, n: nat, rest: seq<Op>, end: real)
    requires Resting(f, last, seen) && last <= t && seen <= t
    requires end == t + 30.0 * n as real && end <= last + p.cooldown && end < seen + p.expiry + 30.0
    ensures KeyHistory(p, f, Ticks(t, n) + rest, k) == KeyHistory(p, f, rest, k)
    decreases n
  {
    if n == 0 {
      assert Ticks(t, 0) + rest == rest;
    } else {
      var more := Ticks(t + 30.0, n - 1) + rest;
      assert 30.0 * n as real == 30.0 + 30.0 * (n - 1) as real;
      QuietTicks(p, f, k, last, seen, t + 30.0, n - 1, rest, end);
      QuietOne(p, f, k, last, seen, t, more);
      TicksFirst(t, n, rest);
    }
  }

  lemma TicksFirst(t: real, n: nat, rest: seq<Op>)
    requires n > 0
    ensures Ticks(t, n) + rest == [Analyze(t), Cleanup(t, {})] + (Ticks(t + 30.0, n - 1) + rest)
  {}

  lemma QuietOne(p: Params, f: Option<Flow>, k: Key, last: real, seen: real, t: real, rest: seq<Op>)
    requires Resting(f, last, seen) && last <= t < last + p.cooldown && seen <= t < seen + p.expiry
    ensures KeyHistory(p, f, [Analyze(t), Cleanup(t, {})] + rest, k) == KeyHistory(p, f, rest, k)
  {
    QuietTick(p, f, k, last, seen, t);
    OneTick(p, f, k, t, rest);
    assert [] + KeyHistory(p, f, rest, k) == KeyHistory(p, f, rest, k);
  }

  lemma OneTick(p: Params, f: Option<Flow>, k: Key, t: real, rest: seq<Op>)
    ensures KeyHistory(p, f, [Analyze(t), Cleanup(t, {})] + rest, k)
         == (if Alerts(p, f, Analyze(t)) then [t] else [])
            + KeyHistory(p, KeyNext(p, KeyNext(p, f, Analyze(t), k), Cleanup(t, {}), k), rest, k)
  {
    var ops := [Analyze(t), Cleanup(t, {})] + rest;
    assert ops[1..] == [Cleanup(t, {})] + rest && ops[1..][1..] == rest;
    var mid := KeyNext(p, f, Analyze(t), k);
    assert KeyHistory(p, mid, ops[1..], k) == KeyHistory(p, KeyNext(p, mid, Cleanup(t, {}), k), rest, k);
  }

  lemma {:induction false} TicksTimed(t: real, n: nat, rest: seq<Op>, end: real)
    requires n >= 1 && end == t + 30.0 * (n - 1) as real && Timed(rest, end)
    ensures Timed(Ticks(t, n) + rest, t)
    decreases n
  {
    var more := Ticks(t + 30.0, n - 1) + rest;
    assert Ticks(t, n) + rest == [Analyze(t)] + ([Cleanup(t, {})] + more);
    if n == 1 {
      assert more == rest;
    } else {
      TicksTimed(t + 30.0, n - 1, rest, end);
      Earlier(more, t + 30.0, t);
    }
    TimedOne(Cleanup(t, {}), more);
    TimedOne(Analyze(t), [Cleanup(t, {})] + more);
  }

  /** A tick at `t` alerts, and forgets the flow when its last packet is 600 s old. */
  lemma AlertTick(p: Params, k: Key, start: real, last: Option<real>, t: real, rest: seq<Op>)
    requires p.Valid() && p.threshold > 0.0 && p.minObservations == 5 && p.expiry == 600.0 && p.cooldown == 300.0
    requires start + 4.0 <= t && (last.Some? ==> last.value + 300.0 <= t)
    ensures var after := if t - (start + 4.0) < 600.0 then Some(Five(start, Some(t))) else None;
            KeyHistory(p, Some(Five(start, last)), Ticks(t, 1) + rest, k) == [t] + KeyHistory(p, after, rest, k)
  {
    RegularIsRipe(p, start, 1.0, 5, last, t);
    FiveLast(start, Some(t));
    assert Ticks(t, 1) == [Analyze(t), Cleanup(t, {})] + Ticks(t + 30.0, 0);
    assert Ticks(t, 1) + rest == [Analyze(t), Cleanup(t, {})] + rest;
    OneTick(p, Some(Five(start, last)), k, t, rest);
  }

  lemma LateAlerts(p: Params, k: Key)
    requires p.Valid() && p == Defaults(p.sqrt, p.huge)
    ensures KeyHistory(p, Some(Five(0.0, Some(305.0))), LateSchedule(k), k) == [605.0, 635.0]
  {
    var last := Ticks(635.0, 1) + [];
    assert last == Ticks(635.0, 1);
    AlertTick(p, k, 606.0, None, 635.0, []);
    PacketsCollect(p, k, 606.0, 1.0, 0, 5, last);
    AlertTick(p, k, 0.0, Some(305.0), 605.0, Packets(k, 606.0, 1.0, 0, 5) + last);
  }

  /** An alert at `t` and nine quiet ticks. */
  lemma AlertAndRest(p: Params, k: Key, last: Option<real>, t: real, rest: seq<Op>)
    requires p.Valid() && p == Defaults(p.sqrt, p.huge) && 4.0 <= t < 334.0 && (last.Some? ==> last.value + 300.0 <= t)
    ensures KeyHistory(p, Some(Five(0.0, last)), Ticks(t, 1) + (Ticks(t + 30.0, 9) + rest), k)
         == [t] + KeyHistory(p, Some(Five(0.0, Some(t))), rest, k)
  {
    FiveLast(0.0, Some(t));
    QuietTicks(p, Some(Five(0.0, Some(t))), k, t, 4.0, t + 30.0, 9, rest, t + 300.0);
    AlertTick(p, k, 0.0, last, t, Ticks(t + 30.0, 9) + rest);
  }

  lemma ScheduleIsTimed(k: Key)
    ensures Timed(Schedule(k), 0.0)
  {
    var last := Ticks(635.0, 1) + [];
    assert last == Ticks(635.0, 1);
    TicksTimed(635.0, 1, [], 635.0);
    AtIs(606.0, 1.0, 4);
    Earlier(last, 635.0, At(606.0, 1.0, 4));
    PacketsTimed(k, 606.0, 1.0, 0, 5, last);
    var packets := Packets(k, 606.0, 1.0, 0, 5) + last;
    Earlier(packets, 606.0, 605.0);
    TicksTimed(605.0, 1, packets, 605.0);
    Earlier(LateSchedule(k), 605.0, 575.0);
    TicksTimed(335.0, 9, LateSchedule(k), 575.0);
    var from335 := Ticks(335.0, 9) + LateSchedule(k);
    Earlier(from335, 335.0, 305.0);
    EarlyIsTimed(k, from335);
  }

  lemma EarlyIsTimed(k: Key, rest: seq<Op>)
    requires Timed(rest, 305.0)
    ensures Timed(Packets(k, 0.0, 1.0, 0, 5) + (Ticks(5.0, 1) + (Ticks(35.0, 9) + (Ticks(305.0, 1) + rest))), 0.0)
  {
    TicksTimed(305.0, 1, rest, 305.0);
    var from305 := Ticks(305.0, 1) + rest;
    Earlier(from305, 305.0, 275.0);
    TicksTimed(35.0, 9, from305, 275.0);
    var from35 := Ticks(35.0, 9) + from305;
    Earlier(from35, 35.0, 5.0);
    TicksTimed(5.0, 1, from35, 5.0);
    AtIs(0.0, 1.0, 4);
    Earlier(Ticks(5.0, 1) + from35, 5.0, At(0.0, 1.0, 4));
    PacketsTimed(k, 0.0, 1.0, 0, 5, Ticks(5.0, 1) + from35);
  }

  /** Under the default settings and a regular schedule, with nothing evicted, a flow can alert 30 s
      after its last alert although the cooldown is 300 s: expiry counts from the last packet. */
  lemma ExpiryForgetsCooldown(sqrt: real -> real, huge: real, k: Key)
    requires IsSqrt(sqrt) && huge >= 0.3
    ensures History(Defaults(sqrt, huge), map[], Schedule(k), k) == [5.0, 305.0, 605.0, 635.0]
    ensures Timed(Schedule(k), 0.0)
  {
    var p := Defaults(sqrt, huge);
    ScheduleIsTimed(k);
    LateAlerts(p, k);
    AlertAndRest(p, k, Some(5.0), 305.0, LateSchedule(k));
    var from305 := Ticks(305.0, 1) + (Ticks(335.0, 9) + LateSchedule(k));
    AlertAndRest(p, k, None, 5.0, from305);
    PacketsCollect(p, k, 0.0, 1.0, 0, 5, Ticks(5.0, 1) + (Ticks(35.0, 9) + from305));
    HistoryOfKey(p, map[], Schedule(k), k);
  }
}
