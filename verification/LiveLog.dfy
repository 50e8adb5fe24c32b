// The live log: the bounded ring of net-guardia/src/infrastructure/log_buffer.rs, message
// truncation, and the polling cursor of net-guardia/src/adapter/http/logs.rs. Pushes and polls
// are sequential.

module LiveLog {
  import opened Basics
  import opened Utf8

  datatype Entry = Entry(id: nat, severity: nat, message: seq<Byte>)

  datatype Snapshot = Snapshot(entries: seq<Entry>, latestId: nat, total: nat)

  function Pushed(queue: seq<Entry>, capacity: nat, e: Entry): (r: seq<Entry>)
    requires capacity >= 1
  {
    if |queue| < capacity then queue + [e] else queue[1..] + [e]
  }

  predicate Wanted(e: Entry, since: nat, severity: nat) {
    e.id > since && e.severity <= severity
  }

  function Matching(queue: seq<Entry>, since: nat, severity: nat): (m: seq<Entry>) {
    if queue == [] then []
    else
      var last := queue[|queue| - 1];
      Matching(queue[..|queue| - 1], since, severity) + (if Wanted(last, since, severity) then [last] else [])
  }

  function Take(s: seq<Entry>, n: nat): (r: seq<Entry>) {
    if |s| <= n then s else s[..n]
  }

  function LatestId(queue: seq<Entry>): (id: nat) {
    if queue == [] then 0 else queue[|queue| - 1].id
  }

  class LogRingBuffer {
    const capacity: nat
    const maxMessageBytes: nat
    var queue: seq<Entry>
    var nextId: nat
    var latestId: nat

    /** Ids count up from 1, and the ring ends with the latest. */
    ghost predicate Valid()
      reads this
    {
      && 1 <= capacity && |queue| <= capacity && maxMessageBytes >= 64
      && nextId == latestId + 1 && latestId == LatestId(queue) && Increasing(queue)
    }

    constructor (capacity: nat, maxMessageBytes: nat)
      ensures Valid() && queue == [] && nextId == 1
      ensures this.capacity == if capacity == 0 then 1 else capacity
      ensures this.maxMessageBytes == if maxMessageBytes < 64 then 64 else maxMessageBytes
    {
      this.capacity := if capacity == 0 then 1 else capacity;
      this.maxMessageBytes := if maxMessageBytes < 64 then 64 else maxMessageBytes;
      queue, nextId, latestId := [], 1, 0;
    }

    /** `on_event`: the message is cut to size, numbered and pushed. */
    method OnEvent(severity: nat, message: seq<Byte>) returns (e: Entry)
      requires Valid() && ValidUtf8(message)
      modifies this
      ensures Valid() && nextId == old(nextId) + 1 && queue == Pushed(old(queue), capacity, e)
      ensures e.id == old(nextId) && e.severity == severity && e.id > LatestId(old(queue))
      ensures |e.message| <= maxMessageBytes && (|message| <= maxMessageBytes ==> e.message == message)
    {
      var kept := message;
      if |message| > maxMessageBytes { kept := TruncateMessage(message, maxMessageBytes); }
      e := Entry(nextId, severity, kept);
      nextId := nextId + 1;
      Push(e);
    }

    method Push(e: Entry)
      requires 1 <= capacity && |queue| <= capacity && Increasing(queue) && e.id > LatestId(queue)
      modifies this`queue, this`latestId
      ensures queue == Pushed(old(queue), capacity, e) && Increasing(queue) && latestId == LatestId(queue) == e.id
    {
      latestId := e.id;
      if |queue| == capacity { queue := queue[1..]; }
      queue := queue + [e];
    }

    /** Drains the ring, selects, and refills it: the ring is left as it was. */
    method TakeSnapshot(since: nat, severity: nat, limit: nat) returns (s: Snapshot)
      requires Valid()
      modifies this`queue
      ensures Valid() && queue == old(queue)
      ensures s == Snapshot(Take(Matching(queue, since, severity), limit), LatestId(queue), |queue|)
    {
      var drained := Drain();
      var entries := Select(drained, since, severity, limit);
      Refill(drained);
      s := Snapshot(entries, if drained == [] then 0 else drained[|drained| - 1].id, |drained|);
    }

    method Drain() returns (drained: seq<Entry>)
      modifies this`queue
      ensures queue == [] && drained == old(queue)
    {
      drained := [];
      while queue != []
        invariant drained + queue == old(queue)
        decreases |queue|
      {
        drained := drained + [queue[0]];
        queue := queue[1..];
      }
    }

    method Refill(drained: seq<Entry>)
      requires queue == [] && |drained| <= capacity
      modifies this`queue
      ensures queue == drained
    {
      for i := 0 to |drained|
        invariant queue == drained[..i]
      {
        queue := queue + [drained[i]];
      }
    }
  }

  method Select(drained: seq<Entry>, since: nat, severity: nat, limit: nat) returns (entries: seq<Entry>)
    ensures entries == Take(Matching(drained, since, severity), limit)
  {
    entries := [];
    for i := 0 to |drained|
      invariant entries == Matching(drained[..i], since, severity) && |entries| <= limit
    {
      if |entries| >= limit {
        MatchingGrows(drained, i, since, severity);
        return;
      }
      assert drained[..i + 1][..i] == drained[..i];
      if Wanted(drained[i], since, severity) { entries := entries + [drained[i]]; }
    }
    assert drained[..|drained|] == drained;
  }

  lemma {:induction false} MatchingGrows(queue: seq<Entry>, i: nat, since: nat, severity: nat)
    requires i <= |queue|
    ensures Matching(queue[..i], since, severity) <= Matching(queue, since, severity)
    decreases |queue|
  {
    if i == |queue| {
      assert queue[..i] == queue;
    } else {
      var init := queue[..|queue| - 1];
      assert init[..i] == queue[..i];
      MatchingGrows(init, i, since, severity);
    }
  }

  /** `live_logs`: the clamped limit, the entries, and the id to ask from next. */
  method Poll(ring: LogRingBuffer, since: nat, requested: Option<nat>, defaultLimit: nat, maxLimit: nat, severity: nat)
    returns (entries: seq<Entry>, nextId: nat, droppedOldest: bool)
    requires ring.Valid()
    modifies ring
    ensures ring.Valid() && ring.queue == old(ring.queue)
    ensures entries == Take(Matching(ring.queue, since, severity), ClampedLimit(requested, defaultLimit, maxLimit))
    ensures nextId == NextCursor(ring.queue, entries)
    ensures droppedOldest <==> DroppedFlag(since, entries)
  {
    var limit := ClampedLimit(requested, defaultLimit, maxLimit);
    var snap := ring.TakeSnapshot(since, severity, limit);
    entries := snap.entries;
    droppedOldest := since > 0 && entries != [] && entries[0].id > since + 1;
    nextId := if entries == [] then snap.latestId else entries[|entries| - 1].id;
  }

  /** `dropped_oldest`. */
  predicate DroppedFlag(since: nat, entries: seq<Entry>) {
    since > 0 && entries != [] && entries[0].id > since + 1
  }

  function ClampedLimit(requested: Option<nat>, defaultLimit: nat, maxLimit: nat): (n: nat)
    ensures 1 <= n && (n <= maxLimit || n == 1)
    ensures requested.Some? && 1 <= requested.value <= maxLimit ==> n == requested.value
    ensures requested.Some? && 1 <= maxLimit < requested.value ==> n == maxLimit
    ensures requested.None? && 1 <= defaultLimit <= maxLimit ==> n == defaultLimit
  {
    var wanted := if requested.Some? then requested.value else defaultLimit;
    var most := if maxLimit == 0 then 1 else maxLimit;
    if wanted < 1 then 1 else if wanted > most then most else wanted
  }

  function NextCursor(queue: seq<Entry>, entries: seq<Entry>): (id: nat) {
    if entries == [] then LatestId(queue) else entries[|entries| - 1].id
  }

  // ----- a polling client -----

  datatype Op = Push(entry: Entry) | PollWith(limit: nat)

  /** `overwritten` logs the entries pushed out of the ring while still ahead of the cursor. */
  datatype World = World(
    queue: seq<Entry>, pushed: seq<Entry>, cursor: nat, delivered: seq<Entry>, overwritten: seq<Entry>)

  const Initial: World := World([], [], 0, [], [])

  function Next(capacity: nat, severity: nat, w: World, op: Op): (r: World)
    requires capacity >= 1
  {
    match op
    case Push(e) =>
      w.(queue := Pushed(w.queue, capacity, e), pushed := w.pushed + [e],
         overwritten := if |w.queue| >= capacity && w.queue[0].id > w.cursor then w.overwritten + [w.queue[0]] else w.overwritten)
    case PollWith(limit) =>
      var entries := Take(Matching(w.queue, w.cursor, severity), limit);
      w.(cursor := NextCursor(w.queue, entries), delivered := w.delivered + entries)
  }

  function Run(capacity: nat, severity: nat, w: World, ops: seq<Op>): (r: World)
    requires capacity >= 1
    decreases |ops|
  {
    if ops == [] then w else Run(capacity, severity, Next(capacity, severity, w, ops[0]), ops[1..])
  }

  /** Ids are pushed in increasing order from 1, and limits are at least 1. */
  predicate Proper(w: World, op: Op) {
    match op
    case Push(e) => e.id > LatestId(w.pushed)
    case PollWith(limit) => limit >= 1
  }

  ghost predicate ProperRun(capacity: nat, severity: nat, w: World, ops: seq<Op>)
    requires capacity >= 1
    decreases |ops|
  {
    ops != [] ==> Proper(w, ops[0]) && ProperRun(capacity, severity, Next(capacity, severity, w, ops[0]), ops[1..])
  }

  predicate Increasing(s: seq<Entry>) {
    forall i, j :: 0 <= i < j < |s| ==> s[i].id < s[j].id
  }

  predicate IsRecent(queue: seq<Entry>, pushed: seq<Entry>, capacity: nat) {
    |queue| == (if |pushed| < capacity then |pushed| else capacity) && queue == pushed[|pushed| - |queue|..]
  }

  /** The ring holds the most recent entries in order, and an entry that has left it is behind the
      cursor or logged as overwritten. */
  ghost predicate RingOk(capacity: nat, w: World) {
    && IsRecent(w.queue, w.pushed, capacity)
    && Increasing(w.pushed) && w.cursor <= LatestId(w.pushed) && AllAccounted(w)
  }

  ghost predicate AllAccounted(w: World) {
    forall e :: e in w.pushed ==> Accounted(w, e)
  }

  predicate Accounted(w: World, e: Entry) {
    e in w.queue || e.id <= w.cursor || e in w.overwritten
  }

  /** The client has seen, in order and once each, every matching entry up to its cursor that was
      not overwritten first. */
  ghost predicate ClientOk(severity: nat, w: World) {
    && Increasing(w.delivered)
    && (forall e :: e in w.delivered ==> e in w.pushed && e.severity <= severity && e.id <= w.cursor)
    && (forall e :: e in w.pushed && e.severity <= severity && e.id <= w.cursor ==> e in w.delivered || e in w.overwritten)
  }

  lemma {:induction false} InMatching(queue: seq<Entry>, since: nat, severity: nat, e: Entry)
    ensures e in Matching(queue, since, severity) <==> e in queue && Wanted(e, since, severity)
  {
    if queue != [] {
      var init, last := queue[..|queue| - 1], queue[|queue| - 1];
      assert queue == init + [last];
      InMatching(init, since, severity, e);
    }
  }

  lemma {:induction false} MatchingIncreases(queue: seq<Entry>, since: nat, severity: nat)
    requires Increasing(queue)
    ensures Increasing(Matching(queue, since, severity))
  {
    if queue != [] {
      var init, last := queue[..|queue| - 1], queue[|queue| - 1];
      MatchingIncreases(init, since, severity);
      var m := Matching(init, since, severity);
      forall i | 0 <= i < |m| ensures m[i].id < last.id {
        InMatching(init, since, severity, m[i]);
        assert m[i] in m;
        var j :| 0 <= j < |init| && init[j] == m[i];
        assert queue[j] == m[i];
      }
    }
  }

  lemma QueueIncreases(capacity: nat, w: World)
    requires RingOk(capacity, w)
    ensures Increasing(w.queue) && (forall e :: e in w.queue ==> e in w.pushed) && LatestId(w.queue) <= LatestId(w.pushed)
    ensures capacity >= 1 ==> LatestId(w.queue) == LatestId(w.pushed)
  {}

  lemma PushIsRecent(queue: seq<Entry>, pushed: seq<Entry>, capacity: nat, e: Entry)
    requires capacity >= 1 && IsRecent(queue, pushed, capacity)
    ensures IsRecent(Pushed(queue, capacity, e), pushed + [e], capacity)
  {
    var k := |pushed| - |queue|;
    if |queue| < capacity {
      assert (pushed + [e])[k..] == queue + [e];
    } else {
      assert (pushed + [e])[k + 1..] == pushed[k + 1..] + [e];
      assert queue[1..] == pushed[k + 1..];
    }
  }

  lemma PushIncreases(pushed: seq<Entry>, e: Entry)
    requires Increasing(pushed) && e.id > LatestId(pushed)
    ensures Increasing(pushed + [e])
  {}

  /** A push keeps every entry of the ring but, in a full one, the oldest. */
  lemma PushKeepsOthers(queue: seq<Entry>, capacity: nat, e: Entry)
    requires capacity >= 1 && |queue| <= capacity
    ensures e in Pushed(queue, capacity, e)
    ensures forall x :: x in queue ==> x in Pushed(queue, capacity, e) || (|queue| >= capacity && x == queue[0])
  {
    var r := Pushed(queue, capacity, e);
    assert r[|r| - 1] == e;
    forall x | x in queue && !(|queue| >= capacity && x == queue[0]) ensures x in r {
      var i :| 0 <= i < |queue| && queue[i] == x;
      assert r[if |queue| < capacity then i else i - 1] == x;
    }
  }

  lemma PushAccounts(capacity: nat, severity: nat, w: World, e: Entry)
    requires capacity >= 1 && |w.queue| <= capacity && AllAccounted(w)
    ensures AllAccounted(Next(capacity, severity, w, Push(e)))
  {
    PushKeepsOthers(w.queue, capacity, e);
    var r := Next(capacity, severity, w, Push(e));
    forall x | x in r.pushed ensures Accounted(r, x) {
      if x in w.pushed { assert Accounted(w, x); }
    }
  }

  lemma PushStep(capacity: nat, severity: nat, w: World, e: Entry)
    requires capacity >= 1 && RingOk(capacity, w) && Proper(w, Push(e))
    ensures RingOk(capacity, Next(capacity, severity, w, Push(e)))
  {
    var r := Next(capacity, severity, w, Push(e));
    PushIsRecent(w.queue, w.pushed, capacity, e);
    PushIncreases(w.pushed, e);
    PushAccounts(capacity, severity, w, e);
    assert LatestId(r.pushed) == e.id;
  }

  lemma PushKeepsClient(capacity: nat, severity: nat, w: World, e: Entry)
    requires capacity >= 1 && RingOk(capacity, w) && ClientOk(severity, w) && Proper(w, Push(e))
    ensures ClientOk(severity, Next(capacity, severity, w, Push(e)))
  {}

  /** A bounded prefix of an increasing sequence holds all its elements up to the prefix's last. */
  lemma TakeUpTo(m: seq<Entry>, limit: nat, e: Entry)
    requires Increasing(m) && limit >= 1 && e in m && e.id <= Take(m, limit)[|Take(m, limit)| - 1].id
    ensures e in Take(m, limit)
  {
    var i :| 0 <= i < |m| && m[i] == e;
    var t := Take(m, limit);
    assert m[|t| - 1] == t[|t| - 1];
    assert i < |t|;
    assert t[i] == e;
  }

  lemma PollDelivers(queue: seq<Entry>, cursor: nat, severity: nat, limit: nat, e: Entry)
    requires Increasing(queue)
    ensures var entries := Take(Matching(queue, cursor, severity), limit);
            e in entries ==> e in queue && Wanted(e, cursor, severity) && e.id <= entries[|entries| - 1].id
  {
    var m := Matching(queue, cursor, severity);
    InMatching(queue, cursor, severity, e);
    MatchingIncreases(queue, cursor, severity);
    if e in Take(m, limit) {
      var i :| 0 <= i < |Take(m, limit)| && Take(m, limit)[i] == e;
      assert m[i] == e;
    }
  }

  lemma PollMisses(queue: seq<Entry>, cursor: nat, severity: nat, limit: nat, e: Entry)
    requires Increasing(queue) && limit >= 1 && e in queue && Wanted(e, cursor, severity)
    ensures var entries := Take(Matching(queue, cursor, severity), limit);
            entries != [] && (e.id <= entries[|entries| - 1].id ==> e in entries)
  {
    var m := Matching(queue, cursor, severity);
    InMatching(queue, cursor, severity, e);
    MatchingIncreases(queue, cursor, severity);
    if e.id <= Take(m, limit)[|Take(m, limit)| - 1].id { TakeUpTo(m, limit, e); }
  }

  /** A poll moves the cursor past exactly the entries it delivers and those it need not. */
  lemma PollCursor(queue: seq<Entry>, cursor: nat, severity: nat, limit: nat)
    requires Increasing(queue) && limit >= 1 && cursor <= LatestId(queue)
    ensures var entries := Take(Matching(queue, cursor, severity), limit);
            var next := NextCursor(queue, entries);
            && Increasing(entries) && cursor <= next <= LatestId(queue)
            && (forall e :: e in entries ==> e in queue && Wanted(e, cursor, severity) && e.id <= next)
            && (forall e :: e in queue && Wanted(e, cursor, severity) && e.id <= next ==> e in entries)
  {
    var entries := Take(Matching(queue, cursor, severity), limit);
    MatchingIncreases(queue, cursor, severity);
    forall e | e in entries ensures e in queue && Wanted(e, cursor, severity) && e.id <= NextCursor(queue, entries) {
      PollDelivers(queue, cursor, severity, limit, e);
    }
    forall e | e in queue && Wanted(e, cursor, severity) && e.id <= NextCursor(queue, entries) ensures e in entries {
      PollMisses(queue, cursor, severity, limit, e);
    }
    if entries != [] { assert entries[|entries| - 1] in queue; }
  }

  lemma IncreasingJoin(a: seq<Entry>, b: seq<Entry>, cursor: nat)
    requires Increasing(a) && Increasing(b)
    requires forall e :: e in a ==> e.id <= cursor
    requires forall e :: e in b ==> e.id > cursor
    ensures Increasing(a + b)
  {
    forall i, j | 0 <= i < |a| <= j < |a + b| ensures (a + b)[i].id < (a + b)[j].id {
      assert a[i] in a && b[j - |a|] in b;
    }
  }

  lemma PollKeepsRing(capacity: nat, severity: nat, w: World, limit: nat)
    requires capacity >= 1 && limit >= 1 && RingOk(capacity, w)
    ensures RingOk(capacity, Next(capacity, severity, w, PollWith(limit)))
  {
    QueueIncreases(capacity, w);
    PollCursor(w.queue, w.cursor, severity, limit);
    var r := Next(capacity, severity, w, PollWith(limit));
    forall x | x in r.pushed ensures Accounted(r, x) { assert Accounted(w, x); }
  }

  lemma PollKeepsClient(capacity: nat, severity: nat, w: World, limit: nat)
    requires capacity >= 1 && limit >= 1 && RingOk(capacity, w) && ClientOk(severity, w)
    ensures ClientOk(severity, Next(capacity, severity, w, PollWith(limit)))
  {
    QueueIncreases(capacity, w);
    PollCursor(w.queue, w.cursor, severity, limit);
    IncreasingJoin(w.delivered, Take(Matching(w.queue, w.cursor, severity), limit), w.cursor);
    var r := Next(capacity, severity, w, PollWith(limit));
    forall x | x in r.pushed && x.severity <= severity && x.id <= r.cursor ensures x in r.delivered || x in r.overwritten {
      assert Accounted(w, x);
    }
  }

  /** Over every run: the ring holds the most recent min(capacity, pushed) entries in order, and
      the client sees matching entries in order, never twice, and misses one only if it was
      overwritten while still ahead of the cursor. */
  lemma {:induction false} ClientMissesOnlyOverwritten(capacity: nat, severity: nat, w: World, ops: seq<Op>)
    requires capacity >= 1 && RingOk(capacity, w) && ClientOk(severity, w) && ProperRun(capacity, severity, w, ops)
    ensures RingOk(capacity, Run(capacity, severity, w, ops)) && ClientOk(severity, Run(capacity, severity, w, ops))
    decreases |ops|
  {
    if ops != [] {
      if ops[0].Push? {
        PushStep(capacity, severity, w, ops[0].entry);
        PushKeepsClient(capacity, severity, w, ops[0].entry);
      } else {
        PollKeepsRing(capacity, severity, w, ops[0].limit);
        PollKeepsClient(capacity, severity, w, ops[0].limit);
      }
      ClientMissesOnlyOverwritten(capacity, severity, Next(capacity, severity, w, ops[0]), ops[1..]);
    }
  }

  lemma FreshClient(capacity: nat, severity: nat, ops: seq<Op>)
    requires capacity >= 1 && ProperRun(capacity, severity, Initial, ops)
    ensures var r := Run(capacity, severity, Initial, ops);
            && IsRecent(r.queue, r.pushed, capacity) && Increasing(r.delivered)
            && (forall e :: e in r.delivered ==> e in r.pushed && e.severity <= severity)
            && forall e :: e in r.pushed && e.severity <= severity && e.id <= r.cursor ==> e in r.delivered || e in r.overwritten
  {
    ClientMissesOnlyOverwritten(capacity, severity, Initial, ops);
  }

  // ----- what the dropped flag tells -----

  /** Ids count up from 1, as `on_event` assigns them. */
  predicate Consecutive(pushed: seq<Entry>) {
    forall i :: 0 <= i < |pushed| ==> pushed[i].id == i + 1
  }

  /** A matching entry ahead of the cursor has been overwritten. */
  ghost predicate Lost(queue: seq<Entry>, pushed: seq<Entry>, since: nat, severity: nat) {
    exists i :: since <= i < |pushed| && pushed[i].severity <= severity && pushed[i] !in queue
  }

  /** A matching entry ahead of the cursor is still there. */
  ghost predicate SomeLeft(queue: seq<Entry>, since: nat, severity: nat) {
    exists i :: 0 <= i < |queue| && Wanted(queue[i], since, severity)
  }

  /** The very next entry is there and matches. */
  predicate NextLeft(queue: seq<Entry>, pushed: seq<Entry>, since: nat, severity: nat) {
    since < |pushed| && pushed[since] in queue && pushed[since].severity <= severity
  }

  lemma SomeLeftExactly(queue: seq<Entry>, since: nat, severity: nat)
    ensures SomeLeft(queue, since, severity) <==> Matching(queue, since, severity) != []
  {
    var m := Matching(queue, since, severity);
    if m != [] {
      InMatching(queue, since, severity, m[0]);
      assert m[0] in m;
    }
    if i :| 0 <= i < |queue| && Wanted(queue[i], since, severity) { InMatching(queue, since, severity, queue[i]); }
  }

  /** The entries of the ring are those pushed last. */
  lemma InRing(capacity: nat, queue: seq<Entry>, pushed: seq<Entry>, i: nat)
    requires IsRecent(queue, pushed, capacity) && Consecutive(pushed) && i < |pushed|
    ensures pushed[i] in queue <==> i >= |pushed| - |queue|
  {
    if i >= |pushed| - |queue| { assert queue[i - (|pushed| - |queue|)] == pushed[i]; }
  }

  /** For every poll: the flag is raised exactly when the cursor is not at the start, some matching
      entry is left, and the very next entry is overwritten or does not match. */
  lemma DroppedFlagExact(capacity: nat, queue: seq<Entry>, pushed: seq<Entry>, since: nat, severity: nat, limit: nat)
    requires IsRecent(queue, pushed, capacity) && Consecutive(pushed) && limit >= 1
    ensures DroppedFlag(since, Take(Matching(queue, since, severity), limit)) <==>
            since > 0 && SomeLeft(queue, since, severity) && !NextLeft(queue, pushed, since, severity)
  {
    SomeLeftExactly(queue, since, severity);
    TakeHead(Matching(queue, since, severity), limit);
    if Matching(queue, since, severity) != [] { HeadIsNext(capacity, queue, pushed, since, severity); }
  }

  lemma TakeHead(m: seq<Entry>, limit: nat)
    requires limit >= 1
    ensures (Take(m, limit) == [] <==> m == []) && (m != [] ==> Take(m, limit)[0] == m[0])
  {}

  /** The first matching entry is the very next one exactly when that is there and matches. */
  lemma HeadIsNext(capacity: nat, queue: seq<Entry>, pushed: seq<Entry>, since: nat, severity: nat)
    requires IsRecent(queue, pushed, capacity) && Consecutive(pushed) && Matching(queue, since, severity) != []
    ensures Matching(queue, since, severity)[0].id > since + 1 <==> !NextLeft(queue, pushed, since, severity)
  {
    var head := Matching(queue, since, severity)[0];
    RingIncreases(capacity, queue, pushed);
    var h := FirstMatching(queue, since, severity, head);
    var j := RingAt(capacity, queue, pushed, h);
    var i := FirstMatching(queue, since, severity, pushed[since]);
    HeadOrLater(queue, pushed, head, j, since, severity);
  }

  lemma HeadOrLater(queue: seq<Entry>, pushed: seq<Entry>, head: Entry, j: nat, since: nat, severity: nat)
    requires Consecutive(pushed) && since < |pushed| && head in queue && Wanted(head, since, severity)
    requires j < |pushed| && head == pushed[j]
    requires pushed[since] in queue && Wanted(pushed[since], since, severity) ==> head.id <= since + 1
    ensures head.id > since + 1 <==> !NextLeft(queue, pushed, since, severity)
  {}

  lemma RingIncreases(capacity: nat, queue: seq<Entry>, pushed: seq<Entry>)
    requires IsRecent(queue, pushed, capacity) && Consecutive(pushed)
    ensures Increasing(queue)
  {}

  lemma RingAt(capacity: nat, queue: seq<Entry>, pushed: seq<Entry>, i: nat) returns (j: nat)
    requires IsRecent(queue, pushed, capacity) && i < |queue|
    ensures j < |pushed| && queue[i] == pushed[j]
  {
    j := |pushed| - |queue| + i;
  }

  /** The flag says that a matching entry was lost exactly when two things do not happen: a loss
      with nothing matching left or with the cursor at the start, which stays silent, and a next
      entry that is filtered out with nothing lost, which is a false alarm. */
  lemma FlagTellsLossExactly(capacity: nat, queue: seq<Entry>, pushed: seq<Entry>, since: nat, severity: nat, limit: nat)
    requires IsRecent(queue, pushed, capacity) && Consecutive(pushed) && limit >= 1
    ensures (DroppedFlag(since, Take(Matching(queue, since, severity), limit)) <==> Lost(queue, pushed, since, severity)) <==>
            && (Lost(queue, pushed, since, severity) ==> since > 0 && SomeLeft(queue, since, severity))
            && (since > 0 && SomeLeft(queue, since, severity) && !Lost(queue, pushed, since, severity) ==>
                  since < |pushed| && pushed[since].severity <= severity)
  {
    DroppedFlagExact(capacity, queue, pushed, since, severity, limit);
    if SomeLeft(queue, since, severity) {
      var i :| 0 <= i < |queue| && Wanted(queue[i], since, severity);
      assert queue[i] == pushed[|pushed| - |queue| + i];
      InRing(capacity, queue, pushed, since);
      if Lost(queue, pushed, since, severity) {
        var j :| since <= j < |pushed| && pushed[j].severity <= severity && pushed[j] !in queue;
        InRing(capacity, queue, pushed, j);
      }
    }
  }

  const ERROR: nat := 1
  const TRACE: nat := 5

  /** Levels run from ERROR to TRACE. */
  predicate LevelsOk(pushed: seq<Entry>) {
    forall i :: 0 <= i < |pushed| ==> ERROR <= pushed[i].severity <= TRACE
  }

  /** For every ring and every history, a poll with this cursor, level and limit gets a flag that
      tells whether a matching entry was lost. */
  ghost predicate FlagIsRight(since: nat, severity: nat, limit: nat) {
    forall capacity: nat, queue, pushed ::
      capacity >= 1 && IsRecent(queue, pushed, capacity) && Consecutive(pushed) && LevelsOk(pushed) ==>
      (DroppedFlag(since, Take(Matching(queue, since, severity), limit)) <==> Lost(queue, pushed, since, severity))
  }

  /** All but the last two entries are of no matter; the next to last is lost, and the last, at the
      lowest level, has overwritten it. */
  function LosingHistory(since: nat): (pushed: seq<Entry>) {
    seq(since + 2, i requires 0 <= i < since + 2 => Entry(i + 1, if i == since + 1 then TRACE else ERROR, []))
  }

  lemma LosingHistoryLoses(since: nat, severity: nat)
    requires severity >= ERROR
    ensures var pushed := LosingHistory(since);
            var queue := pushed[since + 1..];
            && IsRecent(queue, pushed, 1) && Consecutive(pushed) && LevelsOk(pushed)
            && Lost(queue, pushed, since, severity)
            && (severity < TRACE ==> !SomeLeft(queue, since, severity))
  {
    var pushed := LosingHistory(since);
    var queue := pushed[since + 1..];
    assert queue == [pushed[since + 1]];
    assert pushed[since] !in queue;
  }

  /** In a poll for every level, the last entry pushed matches if it is ahead of the cursor. */
  lemma LastIsLeft(capacity: nat, queue: seq<Entry>, pushed: seq<Entry>, since: nat, severity: nat)
    requires capacity >= 1 && IsRecent(queue, pushed, capacity) && Consecutive(pushed) && LevelsOk(pushed)
    requires severity >= TRACE && since < |pushed|
    ensures SomeLeft(queue, since, severity)
  {
    var last := |queue| - 1;
    assert queue[last] == pushed[|pushed| - 1];
    assert Wanted(queue[last], since, severity);
  }

  /** The flag is right, whatever was logged, exactly in polls for every level from a cursor that is
      not at the start. */
  lemma FlagIsRightExactly(since: nat, severity: nat, limit: nat)
    requires limit >= 1 && severity >= ERROR
    ensures FlagIsRight(since, severity, limit) <==> since > 0 && severity >= TRACE
  {
    if since > 0 && severity >= TRACE {
      forall capacity: nat, queue, pushed
        | capacity >= 1 && IsRecent(queue, pushed, capacity) && Consecutive(pushed) && LevelsOk(pushed)
        ensures DroppedFlag(since, Take(Matching(queue, since, severity), limit)) <==> Lost(queue, pushed, since, severity)
      {
        UnfilteredFlag(capacity, queue, pushed, since, severity, limit);
      }
    } else {
      var pushed := LosingHistory(since);
      var queue := pushed[since + 1..];
      LosingHistoryLoses(since, severity);
      DroppedFlagExact(1, queue, pushed, since, severity, limit);
      assert IsRecent(queue, pushed, 1);
    }
  }

  lemma UnfilteredFlag(capacity: nat, queue: seq<Entry>, pushed: seq<Entry>, since: nat, severity: nat, limit: nat)
    requires capacity >= 1 && IsRecent(queue, pushed, capacity) && Consecutive(pushed) && LevelsOk(pushed)
    requires since > 0 && severity >= TRACE && limit >= 1
    ensures DroppedFlag(since, Take(Matching(queue, since, severity), limit)) <==> Lost(queue, pushed, since, severity)
  {
    FlagTellsLossExactly(capacity, queue, pushed, since, severity, limit);
    if since < |pushed| {
      LastIsLeft(capacity, queue, pushed, since, severity);
    } else {
      NothingAhead(capacity, queue, pushed, since, severity);
    }
  }

  lemma NothingAhead(capacity: nat, queue: seq<Entry>, pushed: seq<Entry>, since: nat, severity: nat)
    requires IsRecent(queue, pushed, capacity) && Consecutive(pushed) && since >= |pushed|
    ensures !SomeLeft(queue, since, severity)
  {
    forall i | 0 <= i < |queue| ensures !Wanted(queue[i], since, severity) {
      var j := RingAt(capacity, queue, pushed, i);
    }
  }

  lemma RunFour(capacity: nat, severity: nat, a: Op, b: Op, c: Op, d: Op)
    requires capacity >= 1
    ensures Run(capacity, severity, Initial, [a, b, c, d])
         == Next(capacity, severity, Next(capacity, severity, Next(capacity, severity, Next(capacity, severity, Initial, a), b), c), d)
  {
    var ops := [a, b, c, d];
    assert ops[1..] == [b, c, d] && [b, c, d][1..] == [c, d] && [c, d][1..] == [d] && [d][1..] == [];
    var w := Next(capacity, severity, Next(capacity, severity, Next(capacity, severity, Initial, a), b), c);
    assert Run(capacity, severity, w, [d]) == Next(capacity, severity, w, d);
    var v := Next(capacity, severity, Next(capacity, severity, Initial, a), b);
    assert Run(capacity, severity, v, [c, d]) == Run(capacity, severity, w, [d]);
    var u := Next(capacity, severity, Initial, a);
    assert Run(capacity, severity, u, [b, c, d]) == Run(capacity, severity, v, [c, d]);
  }

  /** One delivered entry puts the cursor at its id. */
  lemma FirstDelivered(capacity: nat, e: Entry)
    requires capacity >= 1 && e.id == 1 && e.severity == ERROR
    ensures Next(capacity, ERROR, Next(capacity, ERROR, Initial, Push(e)), PollWith(1)) == World([e], [e], 1, [e], [])
  {
    PushRoom(capacity, ERROR, Initial, e);
    assert [] + [e] == [e];
    assert Next(capacity, ERROR, Initial, Push(e)) == World([e], [e], 0, [], []);
    OneMatches(e);
    var w := World([e], [e], 0, [], []);
    assert Next(capacity, ERROR, w, PollWith(1)) == w.(cursor := 1, delivered := [] + [e]);
  }

  lemma OneMatches(e: Entry)
    requires Wanted(e, 0, ERROR)
    ensures Take(Matching([e], 0, ERROR), 1) == [e]
  {
    assert [e][..0] == [];
    assert Matching([e], 0, ERROR) == Matching([], 0, ERROR) + [e] == [e];
  }

  lemma PushRoom(capacity: nat, severity: nat, w: World, e: Entry)
    requires |w.queue| < capacity
    ensures Next(capacity, severity, w, Push(e)) == w.(queue := w.queue + [e], pushed := w.pushed + [e])
  {}

  /** Nothing is lost, yet the flag is raised: the next entry is below the level asked for. */
  lemma FlagRaisesFalseAlarm(m: seq<Byte>)
    ensures var e1, e2, e3 := Entry(1, ERROR, m), Entry(2, TRACE, m), Entry(3, ERROR, m);
            var w := Run(3, ERROR, Initial, [Push(e1), PollWith(1), Push(e2), Push(e3)]);
            && w.cursor == 1 && w.overwritten == [] && !Lost(w.queue, w.pushed, w.cursor, ERROR)
            && DroppedFlag(w.cursor, Take(Matching(w.queue, w.cursor, ERROR), 1))
  {
    var e1, e2, e3 := Entry(1, ERROR, m), Entry(2, TRACE, m), Entry(3, ERROR, m);
    RunFour(3, ERROR, Push(e1), PollWith(1), Push(e2), Push(e3));
    FirstDelivered(3, e1);
    var w1 := World([e1], [e1], 1, [e1], []);
    PushRoom(3, ERROR, w1, e2);
    var w2 := World([e1, e2], [e1, e2], 1, [e1], []);
    assert [e1] + [e2] == [e1, e2];
    PushRoom(3, ERROR, w2, e3);
    assert [e1, e2] + [e3] == [e1, e2, e3];
    AlarmState(e1, e2, e3);
  }

  lemma AlarmState(e1: Entry, e2: Entry, e3: Entry)
    requires e1.id == 1 && e2.id == 2 && e3.id == 3 && e2.severity == TRACE && e3.severity == ERROR
    ensures var all := [e1, e2, e3];
            !Lost(all, all, 1, ERROR) && DroppedFlag(1, Take(Matching(all, 1, ERROR), 1))
  {
    var all := [e1, e2, e3];
    assert Wanted(all[2], 1, ERROR);
    DroppedFlagExact(3, all, all, 1, ERROR, 1);
  }

  /** An entry that matches is overwritten unseen, the poll returns nothing, the flag stays down,
      and the cursor moves past the loss. */
  lemma FlagMissesLoss(m: seq<Byte>)
    ensures var e1, e2, e3 := Entry(1, ERROR, m), Entry(2, ERROR, m), Entry(3, TRACE, m);
            var w := Run(1, ERROR, Initial, [Push(e1), PollWith(1), Push(e2), Push(e3)]);
            var entries := Take(Matching(w.queue, w.cursor, ERROR), 1);
            && w.cursor == 1 && w.overwritten == [e2] && Lost(w.queue, w.pushed, w.cursor, ERROR)
            && entries == [] && !DroppedFlag(w.cursor, entries) && NextCursor(w.queue, entries) == 3
  {
    var e1, e2, e3 := Entry(1, ERROR, m), Entry(2, ERROR, m), Entry(3, TRACE, m);
    RunFour(1, ERROR, Push(e1), PollWith(1), Push(e2), Push(e3));
    FirstDelivered(1, e1);
    PushOver(ERROR, World([e1], [e1], 1, [e1], []), e1, e2);
    assert [e1] + [e2] == [e1, e2];
    PushOver(ERROR, World([e2], [e1, e2], 1, [e1], []), e2, e3);
    assert [e1, e2] + [e3] == [e1, e2, e3] && [] + [e2] == [e2];
    LossState(e1, e2, e3);
  }

  /** A ring of one entry forgets it, and logs it unless the cursor is past it. */
  lemma PushOver(severity: nat, w: World, first: Entry, e: Entry)
    requires w.queue == [first]
    ensures Next(1, severity, w, Push(e)) == w.(queue := [e], pushed := w.pushed + [e],
              overwritten := if first.id > w.cursor then w.overwritten + [first] else w.overwritten)
  {
    assert w.queue[1..] + [e] == [e];
  }

  lemma LossState(e1: Entry, e2: Entry, e3: Entry)
    requires e1.id == 1 && e2.id == 2 && e3.id == 3 && e2.severity == ERROR && e3.severity == TRACE
    ensures var entries := Take(Matching([e3], 1, ERROR), 1);
            Lost([e3], [e1, e2, e3], 1, ERROR) && entries == [] && NextCursor([e3], entries) == 3
  {
    assert [e1, e2, e3][1] !in [e3];
    SomeLeftExactly([e3], 1, ERROR);
  }

  lemma FirstMatching(queue: seq<Entry>, since: nat, severity: nat, e: Entry) returns (i: nat)
    requires Increasing(queue) && Matching(queue, since, severity) != []
    ensures i < |queue| && queue[i] == Matching(queue, since, severity)[0] && Wanted(queue[i], since, severity)
    ensures e in queue && Wanted(e, since, severity) ==> queue[i].id <= e.id
  {
    var m := Matching(queue, since, severity);
    MatchingIncreases(queue, since, severity);
    InMatching(queue, since, severity, m[0]);
    InMatching(queue, since, severity, e);
    assert m[0] in m;
    i :| 0 <= i < |queue| && queue[i] == m[0];
    if e in m {
      var j :| 0 <= j < |m| && m[j] == e;
    }
  }

  // ----- truncation -----

  /** `...[truncated]` in ASCII. */
  const SUFFIX: seq<Byte> := [46, 46, 46, 91, 116, 114, 117, 110, 99, 97, 116, 101, 100, 93]

  lemma SuffixIsText()
    ensures |SUFFIX| == |"...[truncated]"| && forall i :: 0 <= i < |SUFFIX| ==> SUFFIX[i] == "...[truncated]"[i] as int
  {}

  /** `n` is the last character boundary that leaves room for the marker. */
  predicate CutsAt(message: seq<Byte>, room: nat, n: nat) {
    n <= room && IsBoundary(message, n) && forall k :: n < k <= room ==> !IsBoundary(message, k)
  }

  /** A message that fits is kept; another becomes its longest character-aligned prefix that
      leaves room for the marker, and the marker: still UTF-8 and within the limit. */
  method TruncateMessage(message: seq<Byte>, maxBytes: nat) returns (r: seq<Byte>)
    requires ValidUtf8(message)
    ensures |r| <= maxBytes && ValidUtf8(r)
    ensures |message| <= maxBytes ==> r == message
    ensures |message| > maxBytes && maxBytes <= |SUFFIX| ==> r == SUFFIX[..maxBytes]
    ensures |message| > maxBytes && maxBytes > |SUFFIX| ==>
              exists n: nat :: n <= |message| && CutsAt(message, maxBytes - |SUFFIX|, n) && r == message[..n] + SUFFIX
  {
    if |message| <= maxBytes { return message; }
    if maxBytes <= |SUFFIX| {
      AsciiIsUtf8(SUFFIX[..maxBytes]);
      return SUFFIX[..maxBytes];
    }
    var room: nat := maxBytes - |SUFFIX|;
    var at: nat := room;
    while at > 0 && !IsBoundary(message, at)
      invariant at <= room && forall k :: at < k <= room ==> !IsBoundary(message, k)
    {
      at := at - 1;
    }
    assert CutsAt(message, room, at);
    PrefixIsUtf8(message, at);
    AsciiIsUtf8(SUFFIX);
    AppendIsUtf8(message[..at], SUFFIX);
    r := message[..at] + SUFFIX;
  }
}
