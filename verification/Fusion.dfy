// The fusion and deduplication machine of net-guardia/src/core/detection/orchestrator.rs:
// `handle_detection`, the source list of `emit_fused`, and `cleanup_expired`. Times are in
// nanoseconds; confidences are exact reals; which entry a full cache evicts is left open.

module Fusion {
  import opened Basics

  const SECOND: nat := 1_000_000_000

  datatype Source = ML | Correlation | Beaconing | Suricata

  /** Source address and canonical attack type. */
  datatype Key = Key(srcIp: string, attackType: string)

  datatype Detection = Detection(key: Key, source: Source, confidence: real, now: int)

  datatype Sample = Sample(source: Source, confidence: real)

  datatype Entry = Entry(samples: seq<Sample>, first: int, fusionWindow: nat)

  /** `FusionWindowLengths::default().for_source`. */
  function FusionWindow(s: Source): (w: nat) {
    match s
    case Suricata => 10 * SECOND
    case Beaconing => 8 * SECOND
    case ML => 2 * SECOND
    case Correlation => 5 * SECOND
  }

  predicate Reported(samples: seq<Sample>, s: Source) {
    exists i :: 0 <= i < |samples| && samples[i].source == s
  }

  /** The samples with the source's confidence raised to at least `confidence`. */
  function Raised(samples: seq<Sample>, s: Source, confidence: real): (r: seq<Sample>)
    ensures |r| == |samples|
    ensures forall i :: 0 <= i < |r| ==> r[i].source == samples[i].source
  {
    if samples == [] then []
    else if samples[0].source == s then
      [if samples[0].confidence < confidence then Sample(s, confidence) else samples[0]] + samples[1..]
    else [samples[0]] + Raised(samples[1..], s, confidence)
  }

  /** What becomes of an entry, and the sources fused into an emission if there is one. */
  datatype Outcome = Opened(entry: Entry) | Joined(entry: Entry) | Deduplicated(entry: Entry)

  function Handle(dedupWindow: nat, e: Option<Entry>, d: Detection): (r: Outcome) {
    if e.None? || Since(d.now, e.value.first) >= dedupWindow then
      Opened(Entry([Sample(d.source, d.confidence)], d.now, FusionWindow(d.source)))
    else if Since(d.now, e.value.first) < e.value.fusionWindow then
      if !Reported(e.value.samples, d.source) then
        Joined(e.value.(samples := e.value.samples + [Sample(d.source, d.confidence)]))
      else Deduplicated(e.value.(samples := Raised(e.value.samples, d.source, d.confidence)))
    else Deduplicated(e.value)
  }

  type State = map<Key, Entry>

  function Find(s: State, k: Key): (e: Option<Entry>) {
    if k in s then Some(s[k]) else None
  }

  /** A key new to a full cache takes the place of one other entry. */
  ghost predicate EvictsForRoom(capacity: nat, s: State, k: Key, evicted: set<Key>) {
    evicted <= s.Keys - {k} && |evicted| == if k in s || |s| < capacity then 0 else 1
  }

  function Unexpired(dedupWindow: nat, s: State, now: int): (r: State) {
    map k | k in s && Since(now, s[k].first) < dedupWindow :: s[k]
  }

  class Orchestrator {
    const dedupWindow: nat
    const capacity: nat
    var dedup: State

    ghost predicate Valid() {
      capacity >= 1
    }

    constructor (dedupWindow: nat, capacity: nat)
      ensures Valid() && this.dedupWindow == dedupWindow && dedup == map[]
      ensures this.capacity == if capacity == 0 then 1 else capacity
    {
      this.dedupWindow, this.capacity := dedupWindow, if capacity == 0 then 1 else capacity;
      dedup := map[];
    }

    /** Returns the fused sources when the detection is emitted. */
    method HandleDetection(d: Detection) returns (emitted: Option<seq<Sample>>, ghost evicted: set<Key>)
      requires Valid()
      modifies this
      ensures var r := Handle(dedupWindow, Find(old(dedup), d.key), d);
              && dedup == (old(dedup) - evicted)[d.key := r.entry]
              && emitted == if r.Deduplicated? then None else Some(r.entry.samples)
      ensures EvictsForRoom(capacity, old(dedup), d.key, evicted)
    {
      evicted := {};
      if d.key in dedup {
        var e := dedup[d.key];
        var sinceFirst := Since(d.now, e.first);
        if sinceFirst >= dedupWindow {
          dedup := dedup - {d.key};
        } else if sinceFirst < e.fusionWindow {
          if !Reported(e.samples, d.source) {
            e := e.(samples := e.samples + [Sample(d.source, d.confidence)]);
            dedup := dedup[d.key := e];
            return Some(e.samples), {};
          }
          var samples := RaiseConfidence(e.samples, d.source, d.confidence);
          dedup := dedup[d.key := e.(samples := samples)];
          return None, {};
        } else {
          assert dedup == dedup[d.key := e];
          return None, {};
        }
      } else if |dedup| >= capacity {
        assert dedup.Keys != {};
        var victim :| victim in dedup.Keys;
        evicted := {victim};
        dedup := dedup - {victim};
      }
      var created := Entry([Sample(d.source, d.confidence)], d.now, FusionWindow(d.source));
      dedup := dedup[d.key := created];
      emitted := Some(created.samples);
    }

    method CleanupExpired(now: int)
      modifies this
      ensures dedup == Unexpired(dedupWindow, old(dedup), now)
      ensures forall k :: k in old(dedup) && now >= old(dedup)[k].first + dedupWindow ==> k !in dedup
      ensures forall k :: k in old(dedup) && old(dedup)[k].first <= now < old(dedup)[k].first + dedupWindow ==> k in dedup
    {
      var rest := dedup.Keys;
      while rest != {}
        invariant rest <= old(dedup).Keys && dedup.Keys <= old(dedup).Keys
        invariant forall k :: k in dedup ==> dedup[k] == old(dedup)[k]
        invariant forall k :: k in old(dedup) ==>
          (k in dedup <==> k in rest || Since(now, old(dedup)[k].first) < dedupWindow)
        decreases |rest|
      {
        var k :| k in rest;
        if Since(now, dedup[k].first) >= dedupWindow { dedup := dedup - {k}; }
        rest := rest - {k};
      }
    }
  }

  /** `iter_mut().find(..)` and the conditional raise. */
  method RaiseConfidence(samples: seq<Sample>, s: Source, confidence: real) returns (r: seq<Sample>)
    ensures r == Raised(samples, s, confidence)
  {
    var i := 0;
    while i < |samples| && samples[i].source != s
      invariant i <= |samples|
      invariant forall j :: 0 <= j < i ==> samples[j].source != s
    {
      i := i + 1;
    }
    RaisedFirst(samples, s, confidence, i);
    r := samples;
    if i < |samples| && samples[i].confidence < confidence {
      r := r[i := Sample(s, confidence)];
    }
  }

  /** Only the first sample of the source is raised. */
  lemma {:induction false} RaisedFirst(samples: seq<Sample>, s: Source, c: real, i: nat)
    requires i <= |samples| && (forall j :: 0 <= j < i ==> samples[j].source != s)
    requires i < |samples| ==> samples[i].source == s
    ensures Raised(samples, s, c) ==
            if i < |samples| && samples[i].confidence < c then samples[i := Sample(s, c)] else samples
  {
    if i > 0 {
      RaisedFirst(samples[1..], s, c, i - 1);
    }
  }

  // ----- what an incident's samples mean -----

  datatype Report = Report(source: Source, confidence: real)

  ghost predicate IsMaximum(sample: Sample, reports: seq<Report>) {
    && (forall i :: 0 <= i < |reports| && reports[i].source == sample.source ==> reports[i].confidence <= sample.confidence)
    && exists i :: 0 <= i < |reports| && reports[i] == Report(sample.source, sample.confidence)
  }

  /** One sample for each source that reported, holding its maximum confidence. */
  ghost predicate Summarizes(samples: seq<Sample>, reports: seq<Report>) {
    && (forall i, j :: 0 <= i < j < |samples| ==> samples[i].source != samples[j].source)
    && (forall i :: 0 <= i < |samples| ==> IsMaximum(samples[i], reports))
    && forall j :: 0 <= j < |reports| ==> Reported(samples, reports[j].source)
  }

  lemma SummarizeNew(samples: seq<Sample>, reports: seq<Report>, s: Source, c: real)
    requires Summarizes(samples, reports) && !Reported(samples, s)
    ensures Summarizes(samples + [Sample(s, c)], reports + [Report(s, c)])
  {
    var samples', reports' := samples + [Sample(s, c)], reports + [Report(s, c)];
    forall i | 0 <= i < |samples'| ensures IsMaximum(samples'[i], reports') {
      if i < |samples| {
        assert IsMaximum(samples[i], reports);
        var j :| 0 <= j < |reports| && reports[j] == Report(samples[i].source, samples[i].confidence);
        assert reports'[j] == reports[j];
      } else {
        assert reports'[|reports|] == Report(s, c);
      }
    }
    forall j | 0 <= j < |reports'| ensures Reported(samples', reports'[j].source) {
      if j < |reports| {
        var i :| 0 <= i < |samples| && samples[i].source == reports[j].source;
        assert samples'[i] == samples[i];
      } else {
        assert samples'[|samples|].source == s;
      }
    }
  }

  lemma {:induction false} RaisedAt(samples: seq<Sample>, s: Source, c: real, i: nat)
    requires i < |samples| && forall a, b :: 0 <= a < b < |samples| ==> samples[a].source != samples[b].source
    ensures Raised(samples, s, c)[i] ==
            if samples[i].source == s && samples[i].confidence < c then Sample(s, c) else samples[i]
  {
    if samples[0].source != s && i > 0 {
      RaisedAt(samples[1..], s, c, i - 1);
    }
  }

  lemma SummarizeOld(samples: seq<Sample>, reports: seq<Report>, s: Source, c: real)
    requires Summarizes(samples, reports) && Reported(samples, s)
    ensures Summarizes(Raised(samples, s, c), reports + [Report(s, c)])
  {
    var samples', reports' := Raised(samples, s, c), reports + [Report(s, c)];
    forall i | 0 <= i < |samples'| ensures IsMaximum(samples'[i], reports') {
      RaisedAt(samples, s, c, i);
      assert IsMaximum(samples[i], reports);
      var j :| 0 <= j < |reports| && reports[j] == Report(samples[i].source, samples[i].confidence);
      assert reports'[j] == reports[j] && reports'[|reports|] == Report(s, c);
    }
    forall j | 0 <= j < |reports'| ensures Reported(samples', reports'[j].source) {
      var source := reports'[j].source;
      assert Reported(samples, source) by { if j < |reports| { assert reports[j] == reports'[j]; } }
      var i :| 0 <= i < |samples| && samples[i].source == source;
      assert samples'[i].source == source;
    }
  }

  lemma {:induction false} NoMoreThanSources(samples: seq<Sample>, among: set<Source>)
    requires forall i, j :: 0 <= i < j < |samples| ==> samples[i].source != samples[j].source
    requires forall i :: 0 <= i < |samples| ==> samples[i].source in among
    ensures |samples| <= |among|
  {
    if samples != [] {
      var n := |samples| - 1;
      NoMoreThanSources(samples[..n], among - {samples[n].source});
    }
  }

  /** There are only four sources to list. */
  lemma AtMostFour(samples: seq<Sample>)
    requires forall i, j :: 0 <= i < j < |samples| ==> samples[i].source != samples[j].source
    ensures |samples| <= 4
  {
    var all := {ML, Correlation, Beaconing, Suricata};
    forall s: Source ensures s in all {
      match s case ML => case Correlation => case Beaconing => case Suricata =>
    }
    NoMoreThanSources(samples, all);
  }

  // ----- runs -----

  datatype Step = Detect(detection: Detection, evicted: set<Key>) | Clean(at: int) {
    function Now(): (t: int) {
      if Detect? then detection.now else at
    }
  }

  /** `reports` is what the incident had been reported when it was emitted. */
  datatype Emission = Emission(key: Key, now: int, samples: seq<Sample>, incident: nat, reports: seq<Report>)

  datatype Incident = Incident(key: Key, now: int)

  /** `reports` holds, for each key's latest incident, what was reported inside its fusion window;
      `log` holds the same for every incident, and `current` the number of the key's latest. */
  datatype World = World(
    state: State, emissions: seq<Emission>, incidents: seq<Incident>, reports: map<Key, seq<Report>>,
    log: seq<seq<Report>>, current: map<Key, nat>)

  const Initial: World := World(map[], [], [], map[], [], map[])

  /** The number of the incident that the outcome belongs to. */
  function IncidentOf(w: World, k: Key, r: Outcome): (i: nat) {
    if r.Opened? || k !in w.current then |w.log| else w.current[k]
  }

  function Put(log: seq<seq<Report>>, i: nat, reports: seq<Report>): (r: seq<seq<Report>>) {
    if i < |log| then log[i := reports] else log + [reports]
  }

  function ReportsAfter(w: World, d: Detection, r: Outcome): (reports: seq<Report>) {
    var before := if r.Opened? || d.key !in w.reports then [] else w.reports[d.key];
    if r.Opened? || Since(d.now, r.entry.first) < r.entry.fusionWindow then before + [Report(d.source, d.confidence)]
    else before
  }

  function Next(dedupWindow: nat, w: World, s: Step): (r: World) {
    match s
    case Detect(d, evicted) =>
      var r := Handle(dedupWindow, Find(w.state, d.key), d);
      var reports, i := ReportsAfter(w, d, r), IncidentOf(w, d.key, r);
      World((w.state - evicted)[d.key := r.entry],
            if r.Deduplicated? then w.emissions else w.emissions + [Emission(d.key, d.now, r.entry.samples, i, reports)],
            if r.Opened? then w.incidents + [Incident(d.key, d.now)] else w.incidents,
            w.reports[d.key := reports], Put(w.log, i, reports), w.current[d.key := i])
    case Clean(now) => w.(state := Unexpired(dedupWindow, w.state, now))
  }

  function Run(dedupWindow: nat, w: World, steps: seq<Step>): (r: World)
    decreases |steps|
  {
    if steps == [] then w else Run(dedupWindow, Next(dedupWindow, w, steps[0]), steps[1..])
  }

  /** Time moves forward and no eviction takes an entry still within its dedup window. */
  ghost predicate Orderly(dedupWindow: nat, w: World, steps: seq<Step>, clock: int)
    decreases |steps|
  {
    steps != [] ==>
      && clock <= steps[0].Now()
      && EvictsNoLive(dedupWindow, w.state, steps[0])
      && Orderly(dedupWindow, Next(dedupWindow, w, steps[0]), steps[1..], steps[0].Now())
  }

  ghost predicate EvictsNoLive(dedupWindow: nat, state: State, s: Step) {
    s.Detect? ==> forall k :: k in s.evicted && k in state ==> k != s.detection.key && Since(s.Now(), state[k].first) >= dedupWindow
  }

  ghost predicate Sound(w: World, clock: int) {
    forall k :: k in w.state ==>
      w.state[k].first <= clock && k in w.reports && Summarizes(w.state[k].samples, w.reports[k])
  }

  lemma HandleSummarizes(dedupWindow: nat, w: World, d: Detection, clock: int)
    requires Sound(w, clock) && clock <= d.now
    ensures var r := Handle(dedupWindow, Find(w.state, d.key), d);
            r.entry.first <= d.now && Summarizes(r.entry.samples, ReportsAfter(w, d, r))
  {
    var r := Handle(dedupWindow, Find(w.state, d.key), d);
    if r.Opened? {
      assert [] + [Sample(d.source, d.confidence)] == r.entry.samples;
      SummarizeNew([], [], d.source, d.confidence);
    } else if Since(d.now, r.entry.first) < r.entry.fusionWindow {
      var e := w.state[d.key];
      if r.Joined? {
        SummarizeNew(e.samples, w.reports[d.key], d.source, d.confidence);
      } else {
        SummarizeOld(e.samples, w.reports[d.key], d.source, d.confidence);
      }
    }
  }

  lemma SoundStep(dedupWindow: nat, w: World, s: Step, clock: int)
    requires Sound(w, clock) && clock <= s.Now()
    ensures Sound(Next(dedupWindow, w, s), s.Now())
  {
    if s.Detect? { HandleSummarizes(dedupWindow, w, s.detection, clock); }
  }

  /** Each emission fuses exactly the sources that have reported inside the incident's fusion
      window so far, each once and with its maximum confidence; and a detection is emitted exactly
      when it opens an incident or is its source's first report inside the fusion window. */
  lemma EmissionIsExact(dedupWindow: nat, w: World, d: Detection, evicted: set<Key>, clock: int)
    requires Sound(w, clock) && clock <= d.now
    ensures var n := Next(dedupWindow, w, Detect(d, evicted));
            var e := Find(w.state, d.key);
            var live := e.Some? && Since(d.now, e.value.first) < dedupWindow;
            && (n.emissions != w.emissions <==>
                  !live || (Since(d.now, e.value.first) < e.value.fusionWindow
                            && forall j :: 0 <= j < |w.reports[d.key]| ==> w.reports[d.key][j].source != d.source))
            && (n.emissions != w.emissions ==>
                  && |n.emissions| == |w.emissions| + 1 && n.emissions[..|w.emissions|] == w.emissions
                  && var e := n.emissions[|w.emissions|];
                     e.key == d.key && e.now == d.now && e.samples == n.state[d.key].samples && e.reports == n.reports[d.key])
            && Summarizes(n.state[d.key].samples, n.reports[d.key])
  {
    HandleSummarizes(dedupWindow, w, d, clock);
    if d.key in w.state {
      var e := w.state[d.key];
      assert Reported(e.samples, d.source) <==>
             exists j :: 0 <= j < |w.reports[d.key]| && w.reports[d.key][j].source == d.source by {
        if Reported(e.samples, d.source) {
          var i :| 0 <= i < |e.samples| && e.samples[i].source == d.source;
          assert IsMaximum(e.samples[i], w.reports[d.key]);
        }
      }
    }
  }

  // ----- one emission for each source of each incident -----

  function Sources(reports: seq<Report>): (s: set<Source>) {
    set j | 0 <= j < |reports| :: reports[j].source
  }

  /** How many emissions incident `i` has had. */
  function CountOf(emissions: seq<Emission>, i: nat): (n: nat) {
    if emissions == [] then 0
    else CountOf(emissions[..|emissions| - 1], i) + if emissions[|emissions| - 1].incident == i then 1 else 0
  }

  /** The last report is its source's first. */
  predicate NewSource(reports: seq<Report>) {
    reports != [] && forall j :: 0 <= j < |reports| - 1 ==> reports[j].source != reports[|reports| - 1].source
  }

  /** The emission fuses what its incident had been reported up to a source's first report: each
      source once, with its maximum confidence. */
  ghost predicate EmissionOk(log: seq<seq<Report>>, incidents: seq<Incident>, e: Emission) {
    && e.incident < |log| && e.incident < |incidents| && incidents[e.incident].key == e.key
    && Summarizes(e.samples, e.reports) && NewSource(e.reports) && e.reports <= log[e.incident]
  }

  ghost predicate EmissionsOk(w: World) {
    forall j :: 0 <= j < |w.emissions| ==> EmissionOk(w.log, w.incidents, w.emissions[j])
  }

  /** Each incident has been emitted once for each distinct source reporting in its window. */
  ghost predicate CountsOk(w: World) {
    forall i :: 0 <= i < |w.log| ==> CountOf(w.emissions, i) == |Sources(w.log[i])|
  }

  ghost predicate CurrentOk(w: World) {
    && |w.log| == |w.incidents|
    && forall k :: k in w.state ==> IsCurrent(w, k)
  }

  predicate IsCurrent(w: World, k: Key)
    requires k in w.state
  {
    && k in w.current && w.current[k] < |w.log| && w.current[k] < |w.incidents|
    && w.incidents[w.current[k]] == Incident(k, w.state[k].first) && k in w.reports && w.log[w.current[k]] == w.reports[k]
  }

  lemma SourcesStep(reports: seq<Report>, r: Report)
    ensures Sources(reports + [r]) == Sources(reports) + {r.source}
  {
    var more := reports + [r];
    assert more[|reports|] == r;
    forall s | s in Sources(reports) ensures s in Sources(more) {
      var j :| 0 <= j < |reports| && reports[j].source == s;
      assert more[j] == reports[j];
    }
  }

  /** The sources listed are the sources that reported. */
  lemma ReportedExactly(samples: seq<Sample>, reports: seq<Report>, s: Source)
    requires Summarizes(samples, reports)
    ensures Reported(samples, s) <==> s in Sources(reports)
  {
    if Reported(samples, s) {
      var i :| 0 <= i < |samples| && samples[i].source == s;
      assert IsMaximum(samples[i], reports);
    }
  }

  /** A detection adds a source to its incident exactly when it is emitted. */
  lemma HandleCounts(dedupWindow: nat, w: World, d: Detection, clock: int)
    requires Sound(w, clock)
    ensures var r := Handle(dedupWindow, Find(w.state, d.key), d);
            var reports := ReportsAfter(w, d, r);
            && (r.Opened? ==> |Sources(reports)| == 1 && NewSource(reports))
            && (!r.Opened? ==> && d.key in w.reports && w.reports[d.key] <= reports
                               && |Sources(reports)| == |Sources(w.reports[d.key])| + (if r.Joined? then 1 else 0))
            && (r.Joined? ==> NewSource(reports))
  {
    var r := Handle(dedupWindow, Find(w.state, d.key), d);
    var rep := Report(d.source, d.confidence);
    if r.Opened? {
      OneMoreReport([], rep);
      assert [] + [rep] == [rep] && Sources([]) == {};
    } else {
      var before := w.reports[d.key];
      OneMoreReport(before, rep);
      ReportedExactly(w.state[d.key].samples, before, d.source);
    }
  }

  /** A report adds a source exactly when it is that source's first. */
  lemma OneMoreReport(reports: seq<Report>, r: Report)
    ensures |Sources(reports + [r])| == |Sources(reports)| + (if r.source in Sources(reports) then 0 else 1)
    ensures NewSource(reports + [r]) <==> r.source !in Sources(reports)
  {
    SourcesStep(reports, r);
    if r.source in Sources(reports) {
      assert Sources(reports) + {r.source} == Sources(reports);
      var j :| 0 <= j < |reports| && reports[j].source == r.source;
      assert (reports + [r])[j] == reports[j];
    }
  }

  /** Logs and incidents are only extended. */
  lemma LogGrows(dedupWindow: nat, w: World, s: Step, clock: int)
    requires Sound(w, clock) && CurrentOk(w)
    ensures var r := Next(dedupWindow, w, s);
            && |w.log| <= |r.log| == |r.incidents| && w.incidents <= r.incidents
            && forall i :: 0 <= i < |w.log| ==> w.log[i] <= r.log[i]
  {
    if s.Detect? {
      HandleCounts(dedupWindow, w, s.detection, clock);
      if s.detection.key in w.state { assert IsCurrent(w, s.detection.key); }
    }
  }

  lemma OtherIsCurrent(dedupWindow: nat, w: World, d: Detection, evicted: set<Key>, k: Key, clock: int)
    requires Sound(w, clock) && CurrentOk(w) && k != d.key && k in w.state && k !in evicted
    ensures IsCurrent(Next(dedupWindow, w, Detect(d, evicted)), k)
  {
    assert IsCurrent(w, k);
    if d.key in w.state { assert IsCurrent(w, d.key); }
    LogGrows(dedupWindow, w, Detect(d, evicted), clock);
  }

  lemma DetectedIsCurrent(dedupWindow: nat, w: World, d: Detection, evicted: set<Key>)
    requires CurrentOk(w)
    ensures IsCurrent(Next(dedupWindow, w, Detect(d, evicted)), d.key)
  {
    if d.key in w.state { assert IsCurrent(w, d.key); }
  }

  lemma CurrentStep(dedupWindow: nat, w: World, s: Step, clock: int)
    requires Sound(w, clock) && CurrentOk(w)
    ensures CurrentOk(Next(dedupWindow, w, s))
  {
    var n := Next(dedupWindow, w, s);
    LogGrows(dedupWindow, w, s, clock);
    forall k | k in n.state ensures IsCurrent(n, k) {
      if s.Clean? {
        assert IsCurrent(w, k);
      } else if k == s.detection.key {
        DetectedIsCurrent(dedupWindow, w, s.detection, s.evicted);
      } else {
        OtherIsCurrent(dedupWindow, w, s.detection, s.evicted, k, clock);
      }
    }
  }

  lemma EmissionsStep(dedupWindow: nat, w: World, s: Step, clock: int)
    requires Sound(w, clock) && clock <= s.Now() && CurrentOk(w) && EmissionsOk(w)
    ensures EmissionsOk(Next(dedupWindow, w, s))
  {
    var n := Next(dedupWindow, w, s);
    LogGrows(dedupWindow, w, s, clock);
    forall j | 0 <= j < |n.emissions| ensures EmissionOk(n.log, n.incidents, n.emissions[j]) {
      if j < |w.emissions| {
        assert EmissionOk(w.log, w.incidents, w.emissions[j]);
      } else {
        HandleCounts(dedupWindow, w, s.detection, clock);
        HandleSummarizes(dedupWindow, w, s.detection, clock);
        if s.detection.key in w.state { assert IsCurrent(w, s.detection.key); }
      }
    }
  }

  lemma {:induction false} NoneCounted(emissions: seq<Emission>, i: nat)
    requires forall j :: 0 <= j < |emissions| ==> emissions[j].incident != i
    ensures CountOf(emissions, i) == 0
  {
    if emissions != [] { NoneCounted(emissions[..|emissions| - 1], i); }
  }

  lemma CountOne(emissions: seq<Emission>, e: Emission, i: nat)
    ensures CountOf(emissions + [e], i) == CountOf(emissions, i) + if e.incident == i then 1 else 0
  {
    assert (emissions + [e])[..|emissions|] == emissions;
  }

  /** The count of the detection's incident goes up exactly when it is emitted. */
  lemma CountsHere(dedupWindow: nat, w: World, d: Detection, evicted: set<Key>, clock: int)
    requires Sound(w, clock) && CurrentOk(w) && EmissionsOk(w) && CountsOk(w)
    ensures var n, i := Next(dedupWindow, w, Detect(d, evicted)), IncidentOf(w, d.key, Handle(dedupWindow, Find(w.state, d.key), d));
            i < |n.log| && CountOf(n.emissions, i) == |Sources(n.log[i])|
  {
    var r := Handle(dedupWindow, Find(w.state, d.key), d);
    var n, i := Next(dedupWindow, w, Detect(d, evicted)), IncidentOf(w, d.key, r);
    HandleCounts(dedupWindow, w, d, clock);
    if !r.Deduplicated? { CountOne(w.emissions, n.emissions[|w.emissions|], i); }
    if r.Opened? {
      assert forall j :: 0 <= j < |w.emissions| ==> EmissionOk(w.log, w.incidents, w.emissions[j]);
      NoneCounted(w.emissions, i);
    } else {
      assert IsCurrent(w, d.key);
      assert CountOf(w.emissions, i) == |Sources(w.log[i])|;
    }
  }

  lemma CountsStep(dedupWindow: nat, w: World, s: Step, clock: int)
    requires Sound(w, clock) && CurrentOk(w) && EmissionsOk(w) && CountsOk(w)
    ensures CountsOk(Next(dedupWindow, w, s))
  {
    if s.Detect? {
      var d, n := s.detection, Next(dedupWindow, w, s);
      var at := IncidentOf(w, d.key, Handle(dedupWindow, Find(w.state, d.key), d));
      CountsHere(dedupWindow, w, d, s.evicted, clock);
      if d.key in w.state { assert IsCurrent(w, d.key); }
      forall i | 0 <= i < |n.log| && i != at ensures CountOf(n.emissions, i) == |Sources(n.log[i])| {
        if n.emissions != w.emissions { CountOne(w.emissions, n.emissions[|w.emissions|], i); }
        assert CountOf(w.emissions, i) == |Sources(w.log[i])|;
      }
    }
  }

  predicate Timed(steps: seq<Step>, clock: int)
    decreases |steps|
  {
    steps != [] ==> clock <= steps[0].Now() && Timed(steps[1..], steps[0].Now())
  }

  function EndClock(steps: seq<Step>, clock: int): (t: int) {
    if steps == [] then clock else EndClock(steps[1..], steps[0].Now())
  }

  /** Over every run with a forward clock, whatever is evicted: each emission lists each source that
      had reported in its incident's fusion window once, with its maximum confidence, and each
      incident is emitted exactly once for each distinct source that reported there. */
  lemma {:induction false} OneEmissionPerSource(window: nat, w: World, steps: seq<Step>, clock: int)
    requires Sound(w, clock) && CurrentOk(w) && EmissionsOk(w) && CountsOk(w) && Timed(steps, clock)
    ensures var r := Run(window, w, steps);
            Sound(r, EndClock(steps, clock)) && CurrentOk(r) && EmissionsOk(r) && CountsOk(r)
    decreases |steps|
  {
    if steps != [] {
      SoundStep(window, w, steps[0], clock);
      CurrentStep(window, w, steps[0], clock);
      EmissionsStep(window, w, steps[0], clock);
      CountsStep(window, w, steps[0], clock);
      OneEmissionPerSource(window, Next(window, w, steps[0]), steps[1..], steps[0].Now());
    }
  }

  // ----- incidents are spaced, emissions bounded -----

  ghost predicate Spaced(dedupWindow: nat, incidents: seq<Incident>) {
    forall i, j :: 0 <= i < j < |incidents| && incidents[i].key == incidents[j].key ==>
      incidents[j].now >= incidents[i].now + dedupWindow
  }

  ghost predicate Remembered(dedupWindow: nat, w: World, clock: int) {
    forall i :: 0 <= i < |w.incidents| ==>
      || w.incidents[i].now + dedupWindow <= clock
      || (w.incidents[i].key in w.state && w.incidents[i].now <= w.state[w.incidents[i].key].first)
  }

  /** A remembered incident keeps the next one of its key a dedup window away, whatever is evicted. */
  lemma SpacedNext(dedupWindow: nat, w: World, s: Step, clock: int)
    requires Sound(w, clock) && Remembered(dedupWindow, w, clock) && Spaced(dedupWindow, w.incidents) && clock <= s.Now()
    ensures Spaced(dedupWindow, Next(dedupWindow, w, s).incidents)
  {
    var r := Next(dedupWindow, w, s);
    forall i | 0 <= i < |w.incidents|
      ensures s.Detect? && r.incidents != w.incidents && w.incidents[i].key == s.detection.key ==>
                w.incidents[i].now + dedupWindow <= s.Now()
    {
      var k := w.incidents[i].key;
      if k in w.state { assert w.state[k].first <= clock; }
    }
  }

  /** A step that evicts no live incident forgets none. */
  lemma RememberedStep(dedupWindow: nat, w: World, s: Step, clock: int)
    requires Sound(w, clock) && Remembered(dedupWindow, w, clock) && clock <= s.Now() && EvictsNoLive(dedupWindow, w.state, s)
    ensures Remembered(dedupWindow, Next(dedupWindow, w, s), s.Now())
  {
    var r := Next(dedupWindow, w, s);
    forall i | 0 <= i < |w.incidents|
      ensures || w.incidents[i].now + dedupWindow <= s.Now()
              || (w.incidents[i].key in r.state && w.incidents[i].now <= r.state[w.incidents[i].key].first)
    {
      var k := w.incidents[i].key;
      if k in w.state { assert w.state[k].first <= clock; }
    }
  }

  lemma SpacedStep(dedupWindow: nat, w: World, s: Step, clock: int)
    requires Sound(w, clock) && Remembered(dedupWindow, w, clock) && Spaced(dedupWindow, w.incidents)
    requires clock <= s.Now() && EvictsNoLive(dedupWindow, w.state, s)
    ensures var r := Next(dedupWindow, w, s);
            Remembered(dedupWindow, r, s.Now()) && Spaced(dedupWindow, r.incidents)
  {
    SpacedNext(dedupWindow, w, s, clock);
    RememberedStep(dedupWindow, w, s, clock);
  }

  function CountIn(emissions: seq<Emission>, k: Key, from: int, window: nat): (n: nat) {
    if emissions == [] then 0
    else
      var last := emissions[|emissions| - 1];
      CountIn(emissions[..|emissions| - 1], k, from, window)
      + (if last.key == k && from <= last.now < from + window then 1 else 0)
  }

  /** What `n` emissions in [from, from + window) say about the entry of their key. */
  predicate Explained(e: Option<Entry>, n: nat, from: int, window: nat, clock: int) {
    && (clock < from ==> n == 0)
    && n <= (if e.None? then (if clock < from + window then 3 else 7)
             else if e.value.first < from then |e.value.samples| - 1
             else if e.value.first < from + window then 3 + |e.value.samples|
             else 7)
  }

  lemma HandleExplained(window: nat, e: Option<Entry>, d: Detection, n: nat, from: int, clock: int)
    requires Explained(e, n, from, window, clock) && clock <= d.now
    requires e.Some? ==> e.value.first <= clock && |e.value.samples| <= 4
    ensures var r := Handle(window, e, d);
            |r.entry.samples| <= 4 ==>
              Explained(Some(r.entry), n + (if !r.Deduplicated? && from <= d.now < from + window then 1 else 0), from, window, d.now)
  {}

  lemma ExplainedStep(window: nat, w: World, s: Step, k: Key, from: int, clock: int)
    requires Sound(w, clock) && clock <= s.Now() && EvictsNoLive(window, w.state, s)
    requires Explained(Find(w.state, k), CountIn(w.emissions, k, from, window), from, window, clock)
    ensures var r := Next(window, w, s);
            Explained(Find(r.state, k), CountIn(r.emissions, k, from, window), from, window, s.Now())
  {
    if k in w.state { AtMostFour(w.state[k].samples); }
    if s.Detect? {
      DetectExplained(window, w, s, k, from, clock);
    }
  }

  lemma DetectExplained(window: nat, w: World, s: Step, k: Key, from: int, clock: int)
    requires Sound(w, clock) && clock <= s.Now() && EvictsNoLive(window, w.state, s) && s.Detect?
    requires k in w.state ==> |w.state[k].samples| <= 4
    requires Explained(Find(w.state, k), CountIn(w.emissions, k, from, window), from, window, clock)
    ensures var r := Next(window, w, s);
            Explained(Find(r.state, k), CountIn(r.emissions, k, from, window), from, window, s.Now())
  {
    var d, r := s.detection, Handle(window, Find(w.state, s.detection.key), s.detection);
    DetectCount(window, w, s, k, from);
    if k == d.key {
      HandleSummarizes(window, w, d, clock);
      AtMostFour(r.entry.samples);
      HandleExplained(window, Find(w.state, k), d, CountIn(w.emissions, k, from, window), from, clock);
    } else {
      OtherEntry(window, w, s, k);
      ExplainedLater(Find(w.state, k), CountIn(w.emissions, k, from, window), from, window, clock, d.now);
    }
  }

  /** A detection adds at most its own emission to the count of its key. */
  lemma DetectCount(window: nat, w: World, s: Step, k: Key, from: int)
    requires s.Detect?
    ensures var d := s.detection;
            CountIn(Next(window, w, s).emissions, k, from, window) == CountIn(w.emissions, k, from, window)
              + (if k == d.key && !Handle(window, Find(w.state, k), d).Deduplicated? && from <= d.now < from + window then 1 else 0)
  {
    var r := Next(window, w, s);
    if r.emissions != w.emissions { assert r.emissions[..|r.emissions| - 1] == w.emissions; }
  }

  lemma OtherEntry(window: nat, w: World, s: Step, k: Key)
    requires s.Detect? && k != s.detection.key && EvictsNoLive(window, w.state, s)
    ensures || Find(Next(window, w, s).state, k) == Find(w.state, k)
            || (k in w.state && Find(Next(window, w, s).state, k) == None && Since(s.Now(), w.state[k].first) >= window)
  {}

  lemma ExplainedLater(e: Option<Entry>, n: nat, from: int, window: nat, clock: int, now: int)
    requires Explained(e, n, from, window, clock) && clock <= now && (e.Some? ==> e.value.first <= clock && |e.value.samples| <= 4)
    ensures Explained(e, n, from, window, now)
    ensures e.Some? && Since(now, e.value.first) >= window ==> Explained(None, n, from, window, now)
  {}

  /** Over every orderly run: incidents of one key start at least a dedup window apart, and any
      interval as long as the dedup window holds at most seven emissions of the key. */
  lemma {:induction false} IncidentsSpacedEmissionsBounded(
    window: nat, w: World, steps: seq<Step>, clock: int, k: Key, from: int)
    requires Sound(w, clock) && Orderly(window, w, steps, clock)
    requires Remembered(window, w, clock) && Spaced(window, w.incidents)
    requires Explained(Find(w.state, k), CountIn(w.emissions, k, from, window), from, window, clock)
    ensures var r := Run(window, w, steps);
            Sound(r, EndClock(steps, clock)) && Spaced(window, r.incidents) && CountIn(r.emissions, k, from, window) <= 7
    decreases |steps|
  {
    if steps == [] {
      if k in w.state { AtMostFour(w.state[k].samples); }
    } else {
      SoundStep(window, w, steps[0], clock);
      SpacedStep(window, w, steps[0], clock);
      ExplainedStep(window, w, steps[0], k, from, clock);
      IncidentsSpacedEmissionsBounded(window, Next(window, w, steps[0]), steps[1..], steps[0].Now(), k, from);
    }
  }

  lemma {:induction false} OrderlyIsTimed(window: nat, w: World, steps: seq<Step>, clock: int)
    requires Orderly(window, w, steps, clock)
    ensures Timed(steps, clock)
    decreases |steps|
  {
    if steps != [] { OrderlyIsTimed(window, Next(window, w, steps[0]), steps[1..], steps[0].Now()); }
  }

  /** From the start: incidents spaced, each emitted once for each of its sources with their maximum
      confidences, and at most seven emissions of a key in a dedup window. */
  lemma FusionIsBounded(window: nat, steps: seq<Step>, clock: int, k: Key, from: int)
    requires Orderly(window, Initial, steps, clock)
    ensures var r := Run(window, Initial, steps);
            && Spaced(window, r.incidents) && CountIn(r.emissions, k, from, window) <= 7
            && Sound(r, EndClock(steps, clock)) && EmissionsOk(r) && CountsOk(r)
  {
    IncidentsSpacedEmissionsBounded(window, Initial, steps, clock, k, from);
    OrderlyIsTimed(window, Initial, steps, clock);
    OneEmissionPerSource(window, Initial, steps, clock);
  }

  // ----- when incidents stay spaced, exactly -----

  /** The next detection, whichever it is, keeps incidents spaced. */
  ghost predicate NextIsSafe(capacity: nat, window: nat, w: World, clock: int) {
    forall d: Detection, evicted: set<Key> :: clock <= d.now && EvictsForRoom(capacity, w.state, d.key, evicted) ==>
      Spaced(window, Next(window, w, Detect(d, evicted)).incidents)
  }

  lemma RememberedIsSafe(capacity: nat, window: nat, w: World, clock: int)
    requires Sound(w, clock) && Remembered(window, w, clock) && Spaced(window, w.incidents)
    ensures NextIsSafe(capacity, window, w, clock)
  {
    forall d: Detection, evicted: set<Key> | clock <= d.now && EvictsForRoom(capacity, w.state, d.key, evicted)
      ensures Spaced(window, Next(window, w, Detect(d, evicted)).incidents)
    {
      SpacedNext(window, w, Detect(d, evicted), clock);
    }
  }

  /** Once a live incident is evicted, the next detection of its key opens another too soon. */
  lemma EvictionIsBreakable(capacity: nat, window: nat, w: World, d: Detection, evicted: set<Key>, k: Key)
    requires CurrentOk(w) && k in evicted && k in w.state && k != d.key && Since(d.now, w.state[k].first) < window
    ensures !NextIsSafe(capacity, window, Next(window, w, Detect(d, evicted)), d.now)
  {
    assert IsCurrent(w, k);
    var r := Next(window, w, Detect(d, evicted));
    var again := Detection(k, d.source, d.confidence, d.now);
    var victims := if |r.state| < capacity then {} else {d.key};
    assert EvictsForRoom(capacity, r.state, k, victims);
    var n := Next(window, r, Detect(again, victims));
    assert n.incidents == r.incidents + [Incident(k, d.now)];
    assert n.incidents[w.current[k]] == Incident(k, w.state[k].first);
    assert n.incidents[|r.incidents|] == Incident(k, d.now);
    TooSoon(window, n.incidents, w.current[k], |r.incidents|);
  }

  lemma TooSoon(window: nat, incidents: seq<Incident>, i: nat, j: nat)
    requires i < j < |incidents| && incidents[i].key == incidents[j].key && incidents[j].now < incidents[i].now + window
    ensures !Spaced(window, incidents)
  {}

  /** The key is there, the cache has room, or no other incident is live. */
  ghost predicate RoomToHandle(capacity: nat, window: nat, s: State, d: Detection) {
    d.key in s || |s| < capacity || forall k :: k in s ==> Since(d.now, s[k].first) >= window
  }

  /** Whichever entry the cache evicts for this detection, the next one is safe. */
  ghost predicate AnyHandleIsSafe(capacity: nat, window: nat, w: World, d: Detection) {
    forall evicted :: EvictsForRoom(capacity, w.state, d.key, evicted) ==>
      NextIsSafe(capacity, window, Next(window, w, Detect(d, evicted)), d.now)
  }

  lemma RoomSparesLive(capacity: nat, window: nat, s: State, d: Detection, evicted: set<Key>)
    requires RoomToHandle(capacity, window, s, d) && EvictsForRoom(capacity, s, d.key, evicted)
    ensures EvictsNoLive(window, s, Detect(d, evicted))
  {
    if d.key in s || |s| < capacity { assert evicted == {}; }
  }

  ghost predicate Tracked(window: nat, w: World, clock: int) {
    Sound(w, clock) && CurrentOk(w) && Remembered(window, w, clock) && Spaced(window, w.incidents)
  }

  /** For a known victim, such as the least recently used entry: the detection leaves incidents safe
      exactly when the victim is not live. */
  lemma HandleIsSafeExactly(capacity: nat, window: nat, w: World, d: Detection, evicted: set<Key>, clock: int)
    requires Tracked(window, w, clock) && clock <= d.now && EvictsForRoom(capacity, w.state, d.key, evicted)
    ensures NextIsSafe(capacity, window, Next(window, w, Detect(d, evicted)), d.now) <==> EvictsNoLive(window, w.state, Detect(d, evicted))
  {
    if EvictsNoLive(window, w.state, Detect(d, evicted)) {
      TrackedStep(window, w, Detect(d, evicted), clock);
      RememberedIsSafe(capacity, window, Next(window, w, Detect(d, evicted)), d.now);
    } else {
      var k :| k in evicted && k in w.state && Since(d.now, w.state[k].first) < window;
      EvictionIsBreakable(capacity, window, w, d, evicted, k);
    }
  }

  /** A detection leaves incidents safe, whatever is evicted for it, exactly when its key is there,
      the cache has room, or no incident in it is live. */
  lemma AnyHandleIsSafeExactly(capacity: nat, window: nat, w: World, d: Detection, clock: int)
    requires capacity >= 1 && Tracked(window, w, clock) && clock <= d.now
    ensures AnyHandleIsSafe(capacity, window, w, d) <==> RoomToHandle(capacity, window, w.state, d)
  {
    if RoomToHandle(capacity, window, w.state, d) {
      forall evicted | EvictsForRoom(capacity, w.state, d.key, evicted)
        ensures NextIsSafe(capacity, window, Next(window, w, Detect(d, evicted)), d.now)
      {
        RoomSparesLive(capacity, window, w.state, d, evicted);
        HandleIsSafeExactly(capacity, window, w, d, evicted, clock);
      }
    } else {
      var k :| k in w.state && Since(d.now, w.state[k].first) < window;
      assert EvictsForRoom(capacity, w.state, d.key, {k});
      HandleIsSafeExactly(capacity, window, w, d, {k}, clock);
    }
  }

  lemma TrackedStep(window: nat, w: World, s: Step, clock: int)
    requires Tracked(window, w, clock) && clock <= s.Now() && EvictsNoLive(window, w.state, s)
    ensures Tracked(window, Next(window, w, s), s.Now())
  {
    SoundStep(window, w, s, clock);
    CurrentStep(window, w, s, clock);
    SpacedStep(window, w, s, clock);
  }

  /** The detections of the run evict what a full cache makes them evict. */
  ghost predicate Capped(capacity: nat, window: nat, w: World, steps: seq<Step>)
    decreases |steps|
  {
    steps != [] ==>
      && (steps[0].Detect? ==> EvictsForRoom(capacity, w.state, steps[0].detection.key, steps[0].evicted))
      && Capped(capacity, window, Next(window, w, steps[0]), steps[1..])
  }

  ghost predicate AlwaysRoom(capacity: nat, window: nat, w: World, steps: seq<Step>)
    decreases |steps|
  {
    steps != [] ==>
      && (steps[0].Detect? ==> RoomToHandle(capacity, window, w.state, steps[0].detection))
      && AlwaysRoom(capacity, window, Next(window, w, steps[0]), steps[1..])
  }

  ghost predicate AnyHandleAlwaysSafe(capacity: nat, window: nat, w: World, steps: seq<Step>)
    decreases |steps|
  {
    steps != [] ==>
      && (steps[0].Detect? ==> AnyHandleIsSafe(capacity, window, w, steps[0].detection))
      && AnyHandleAlwaysSafe(capacity, window, Next(window, w, steps[0]), steps[1..])
  }

  /** Over every run: each detection leaves incidents safe whatever is evicted for it exactly when,
      before each, its key is there, the cache has room, or no incident in it is live. */
  lemma {:induction false} IncidentsNeedRoomExactly(capacity: nat, window: nat, w: World, steps: seq<Step>, clock: int)
    requires capacity >= 1 && Tracked(window, w, clock) && Timed(steps, clock) && Capped(capacity, window, w, steps)
    ensures AnyHandleAlwaysSafe(capacity, window, w, steps) <==> AlwaysRoom(capacity, window, w, steps)
    ensures AlwaysRoom(capacity, window, w, steps) ==> Orderly(window, w, steps, clock)
    decreases |steps|
  {
    if steps != [] {
      var s := steps[0];
      if s.Detect? { AnyHandleIsSafeExactly(capacity, window, w, s.detection, clock); }
      if s.Detect? ==> RoomToHandle(capacity, window, w.state, s.detection) {
        if s.Detect? { RoomSparesLive(capacity, window, w.state, s.detection, s.evicted); }
        TrackedStep(window, w, s, clock);
        IncidentsNeedRoomExactly(capacity, window, Next(window, w, s), steps[1..], s.Now());
      }
    }
  }

  /** With room for one incident, a detection of another key evicts it, and its key opens a second
      one two nanoseconds after the first. */
  lemma EvictionBreaksIncidentSpacing(k: Key, q: Key, window: nat)
    requires k != q && window > 2
    ensures var d := (key: Key, now: int) => Detection(key, ML, 0.5, now);
            var w1 := Next(window, Initial, Detect(d(k, 0), {}));
            var w2 := Next(window, w1, Detect(d(q, 1), {k}));
            var w3 := Next(window, w2, Detect(d(k, 2), {q}));
            && EvictsForRoom(1, Initial.state, k, {}) && EvictsForRoom(1, w1.state, q, {k}) && EvictsForRoom(1, w2.state, k, {q})
            && !Spaced(window, w3.incidents)
  {
    var w1 := Next(window, Initial, Detect(Detection(k, ML, 0.5, 0), {}));
    assert w1.state.Keys == {k} && |w1.state| == |w1.state.Keys| == 1;
    var w2 := Next(window, w1, Detect(Detection(q, ML, 0.5, 1), {k}));
    assert w2.state.Keys == {q} && |w2.state| == |w2.state.Keys| == 1;
    var w3 := Next(window, w2, Detect(Detection(k, ML, 0.5, 2), {q}));
    assert w3.incidents == [Incident(k, 0), Incident(q, 1), Incident(k, 2)];
    assert w3.incidents[0].key == w3.incidents[2].key && w3.incidents[2].now < w3.incidents[0].now + window;
  }

  // ----- how long an incident is open to other sources -----

  /** An incident opened by Suricata takes other sources for 10 s, by beaconing for 8 s, by
      correlation for 5 s and by the model for 2 s. */
  lemma FusionLasts(window: nat, k: Key, opener: Source, other: Source, confidence: real, start: int, later: int)
    requires other != opener && start <= later < start + window
    ensures var begun := Handle(window, None, Detection(k, opener, confidence, start)).entry;
            var r := Handle(window, Some(begun), Detection(k, other, confidence, later));
            r.Joined? <==> later < start + (if opener == Suricata then 10_000_000_000 else if opener == Beaconing then 8_000_000_000
                                            else if opener == Correlation then 5_000_000_000 else 2_000_000_000)
  {
    var begun := Handle(window, None, Detection(k, opener, confidence, start)).entry;
    assert begun.samples == [Sample(opener, confidence)];
  }
}
