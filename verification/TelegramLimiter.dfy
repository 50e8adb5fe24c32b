// The lock-free limiter of net-guardia/src/adapter/telegram.rs: one atomic word packs a window
// start and a message count; callers load it, decide, and compare-exchange it. A run is any
// interleaving of those atomic steps by any number of callers, each with its own clock reading.

module TelegramLimiter {
  import opened Basics

  const U32: int := 0x1_0000_0000

  type u32 = x: int | 0 <= x < 0x1_0000_0000

  type u64 = x: int | 0 <= x < 0x1_0000_0000_0000_0000

  datatype Config = Config(maxMessages: u32, configuredSecs: u32) {
    function WindowSecs(): (n: u32)
      ensures n >= 1
    {
      if configuredSecs < 1 then 1 else configuredSecs
    }
  }

  /** `((window as u64) << 32) | count as u64`. */
  function Pack(window: u32, count: u32): (word: u64)
    ensures WindowOf(word) == window && CountOf(word) == count
  {
    window * U32 + count
  }

  function CountOf(word: u64): (n: u32) {
    word % U32
  }

  function WindowOf(word: u64): (t: u32) {
    word / U32
  }

  function SaturatingSub(a: u32, b: u32): (d: u32) {
    if a >= b then a - b else 0
  }

  /** The word a caller wants to store, or None when it is refused. */
  function Decide(cfg: Config, now: u32, word: u64): (next: Option<u64>)
    ensures next.None? <==> now < WindowOf(word) + cfg.WindowSecs() && CountOf(word) >= cfg.maxMessages
    ensures next.Some? ==> next.value != word
    ensures next.Some? ==>
              || (&& WindowOf(next.value) == WindowOf(word)
                  && CountOf(next.value) == CountOf(word) + 1 <= cfg.maxMessages)
              || (WindowOf(next.value) == now >= WindowOf(word) + cfg.WindowSecs() && CountOf(next.value) == 1)
  {
    if SaturatingSub(now, WindowOf(word)) >= cfg.WindowSecs() then Some(Pack(now, 1))
    else if CountOf(word) >= cfg.maxMessages then None
    else Some(Pack(WindowOf(word), CountOf(word) + 1))
  }

  class RateState {
    var word: u64

    /** `check_rate_limit` running alone; the weak exchange may fail `spurious` times first. */
    method CheckRateLimit(cfg: Config, now: u32, spurious: nat) returns (admitted: bool)
      modifies this
      ensures admitted <==> cfg.maxMessages > 0 && Decide(cfg, now, old(word)).Some?
      ensures word == if admitted then Decide(cfg, now, old(word)).value else old(word)
    {
      if cfg.maxMessages == 0 { return false; }
      var failures := spurious;
      while true
        invariant word == old(word)
        decreases failures
      {
        var cur := word;
        var next := Decide(cfg, now, cur);
        if next.None? { return false; }
        if failures == 0 {
          word := next.value;
          return true;
        }
        failures := failures - 1;
      }
    }
  }

  // ----- interleavings -----

  /** A call in progress; `since` counts the admissions up to its last load. */
  datatype Caller =
    | Called(now: u32)
    | Loaded(now: u32, seen: u64, since: nat)
    | Returned(admitted: bool)

  datatype Step =
    | Call(caller: nat, now: u32)
    | Load(caller: nat)
    | Exchange(caller: nat, spurious: bool)

  /** `admitted` logs the window start of each admission, `starts` each new window start. */
  datatype World = World(word: u64, callers: map<nat, Caller>, admitted: seq<u32>, starts: seq<u32>)

  const Initial: World := World(0, map[], [], [])

  function Next(cfg: Config, w: World, s: Step): (r: World) {
    match s
    case Call(t, now) =>
      if t in w.callers && !w.callers[t].Returned? then w
      else w.(callers := w.callers[t := if cfg.maxMessages == 0 then Returned(false) else Called(now)])
    case Load(t) =>
      if t in w.callers && w.callers[t].Called? then
        w.(callers := w.callers[t := Loaded(w.callers[t].now, w.word, |w.admitted|)])
      else w
    case Exchange(t, spurious) =>
      if !(t in w.callers && w.callers[t].Loaded?) then w
      else
        var c := w.callers[t];
        var next := Decide(cfg, c.now, c.seen);
        if next.None? then w.(callers := w.callers[t := Returned(false)])
        else if spurious || w.word != c.seen then w.(callers := w.callers[t := Called(c.now)])
        else
          var window := WindowOf(next.value);
          World(next.value, w.callers[t := Returned(true)], w.admitted + [window],
                if window == WindowOf(w.word) then w.starts else w.starts + [window])
  }

  function Run(cfg: Config, w: World, steps: seq<Step>): (r: World)
    decreases |steps|
  {
    if steps == [] then w else Run(cfg, Next(cfg, w, steps[0]), steps[1..])
  }

  ghost predicate Spaced(starts: seq<u32>, secs: u32) {
    forall i, j :: 0 <= i < j < |starts| ==> starts[j] >= starts[i] + secs
  }

  ghost predicate Counted(cfg: Config, w: World) {
    && multiset(w.admitted)[WindowOf(w.word)] == CountOf(w.word)
    && (forall v: u32 :: multiset(w.admitted)[v] <= cfg.maxMessages)
    && (forall v: u32 :: v > WindowOf(w.word) ==> multiset(w.admitted)[v] == 0)
  }

  ghost predicate Started(cfg: Config, w: World) {
    && Spaced(w.starts, cfg.WindowSecs())
    && forall i :: 0 <= i < |w.starts| ==> w.starts[i] <= WindowOf(w.word)
  }

  ghost predicate Fresh(w: World) {
    forall t :: t in w.callers && w.callers[t].Loaded? ==>
      w.callers[t].since <= |w.admitted| && (w.callers[t].since == |w.admitted| ==> w.callers[t].seen == w.word)
  }

  ghost predicate Inv(cfg: Config, w: World) {
    Counted(cfg, w) && Started(cfg, w) && Fresh(w) && (cfg.maxMessages == 0 ==> NeverCalled(w))
  }

  /** The admitting step: the stored word is the decision on the word it replaces. */
  lemma AdmitStep(cfg: Config, w: World, now: u32, r: World)
    requires Counted(cfg, w) && Started(cfg, w) && cfg.maxMessages > 0
    requires Decide(cfg, now, w.word) == Some(r.word)
    requires r.admitted == w.admitted + [WindowOf(r.word)]
    requires r.starts == if WindowOf(r.word) == WindowOf(w.word) then w.starts else w.starts + [WindowOf(r.word)]
    ensures Counted(cfg, r) && Started(cfg, r) && WindowOf(w.word) <= WindowOf(r.word)
  {
    var window := WindowOf(r.word);
    assert multiset(r.admitted) == multiset(w.admitted) + multiset{window};
  }

  lemma InvStep(cfg: Config, w: World, s: Step)
    requires Inv(cfg, w)
    ensures Inv(cfg, Next(cfg, w, s)) && WindowOf(w.word) <= WindowOf(Next(cfg, w, s).word)
  {
    var r := Next(cfg, w, s);
    if r.admitted != w.admitted {
      AdmitStep(cfg, w, w.callers[s.caller].now, r);
    } else {
      assert r.word == w.word && r.starts == w.starts;
    }
  }

  /** With a zero limit every call has returned at once. */
  ghost predicate NeverCalled(w: World) {
    forall t :: t in w.callers ==> w.callers[t].Returned?
  }

  lemma {:induction false} RunKeeps(cfg: Config, w: World, steps: seq<Step>)
    requires Inv(cfg, w)
    ensures Inv(cfg, Run(cfg, w, steps))
    ensures WindowOf(w.word) <= WindowOf(Run(cfg, w, steps).word)
    decreases |steps|
  {
    if steps != [] {
      InvStep(cfg, w, steps[0]);
      RunKeeps(cfg, Next(cfg, w, steps[0]), steps[1..]);
    }
  }

  lemma {:induction false} RunSplit(cfg: Config, w: World, a: seq<Step>, b: seq<Step>)
    ensures Run(cfg, w, a + b) == Run(cfg, Run(cfg, w, a), b)
    decreases |a|
  {
    if a == [] {
      assert a + b == b;
    } else {
      assert (a + b)[1..] == a[1..] + b;
      RunSplit(cfg, Next(cfg, w, a[0]), a[1..], b);
    }
  }

  /** In every interleaving: at most `maxMessages` admissions per window start, window starts
      that never decrease, and new window starts at least `window_secs` apart. */
  lemma AdmissionsAreBounded(cfg: Config, earlier: seq<Step>, later: seq<Step>)
    ensures var mid := Run(cfg, Initial, earlier);
            var end := Run(cfg, Initial, earlier + later);
            && (forall window: u32 :: multiset(end.admitted)[window] <= cfg.maxMessages)
            && WindowOf(mid.word) <= WindowOf(end.word)
            && Spaced(end.starts, cfg.WindowSecs())
  {
    assert Inv(cfg, Initial);
    RunKeeps(cfg, Initial, earlier);
    RunKeeps(cfg, Run(cfg, Initial, earlier), later);
    RunSplit(cfg, Initial, earlier, later);
  }

  /** Lock freedom: a compare-exchange that fails for real was overtaken by another admission
      since its load, so calls cannot all keep failing. */
  lemma FailedExchangeWasOvertaken(cfg: Config, steps: seq<Step>, t: nat)
    requires var w := Run(cfg, Initial, steps);
             && t in w.callers && w.callers[t].Loaded?
             && Next(cfg, w, Exchange(t, false)).callers[t].Called?
    ensures var w := Run(cfg, Initial, steps);
            w.callers[t].since < |w.admitted|
  {
    assert Inv(cfg, Initial);
    RunKeeps(cfg, Initial, steps);
  }
}
