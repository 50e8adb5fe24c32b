// AF_XDP frame ownership in net-guardia/src/adapter/ebpf/xsk_manager.rs: the split of the frames
// at start and the completion, receive and transmit steps of the packet loop. How far a ring
// operation gets is an argument; the two kernel moves between rings are steps of their own.

module FrameOwnership {
  import opened Basics

  type Frame = nat

  type Packet = seq<Byte>

  /** Who owns each frame. `lost` frames are in no ring and not in the pool. */
  datatype Frames = Frames(
    fill: seq<Frame>, rx: seq<Frame>, pool: seq<Frame>, tx: seq<Frame>, completion: seq<Frame>, lost: seq<Frame>)
  {
    /** In how many places frame `x` is. */
    function Owners(x: Frame): (n: nat) {
      Count(fill, x) + Count(rx, x) + Count(pool, x) + Count(tx, x) + Count(completion, x) + Count(lost, x)
    }
  }

  function Count(s: seq<Frame>, x: Frame): (n: nat) {
    multiset(s)[x]
  }

  /** Half of the frames, at most the fill queue's size, start in the fill queue. */
  function Start(frames: seq<Frame>, fillQueueSize: nat): (f: Frames) {
    var n := Min(|frames| / 2, fillQueueSize);
    Frames(frames[..n], [], frames[n..], [], [], [])
  }

  /** `n` completed frames come back to the pool. */
  function Completed(f: Frames, n: nat): (r: Frames)
    requires n <= |f.completion|
  {
    f.(pool := f.pool + f.completion[..n], completion := f.completion[n..])
  }

  /** `n` frames are received, and the fill queue takes the first `produced` of them back. */
  function Received(f: Frames, n: nat, produced: nat): (r: Frames)
    requires produced <= n <= |f.rx|
  {
    f.(rx := f.rx[n..], fill := f.fill + f.rx[..produced], lost := f.lost + f.rx[produced..n])
  }

  predicate AllFit(packets: seq<Packet>, frameSize: nat) {
    forall i :: 0 <= i < |packets| ==> |packets[i]| <= frameSize
  }

  /** The frames a batch of `k` packets takes from the end of the pool, and those it leaves. */
  function Taken(pool: seq<Frame>, k: nat): (t: seq<Frame>)
    ensures |t| == Min(|pool|, k)
  {
    pool[|pool| - Min(|pool|, k)..]
  }

  function Left(pool: seq<Frame>, k: nat): (t: seq<Frame>) {
    pool[..|pool| - Min(|pool|, k)]
  }

  /** Frames from the end of the pool carry the first packets; the ring takes `submitted`. */
  function Sent(f: Frames, packets: seq<Packet>, frameSize: nat, submitted: nat): (r: Frames)
    requires submitted <= Min(|f.pool|, |packets|)
  {
    var kept, taken := Left(f.pool, |packets|), Taken(f.pool, |packets|);
    if f.pool == [] then f
    else if AllFit(packets[..|taken|], frameSize) then f.(pool := kept + taken[submitted..], tx := f.tx + taken[..submitted])
    else f.(pool := kept, lost := f.lost + taken)
  }

  class XskPair {
    const frameSize: nat
    const txBatchSize: nat
    var fill: seq<Frame>
    var rx: seq<Frame>
    var framePool: seq<Frame>
    var tx: seq<Frame>
    var completion: seq<Frame>
    ghost var lost: seq<Frame>
    var umem: map<Frame, Packet>

    ghost function View(): (f: Frames)
      reads this
    {
      Frames(fill, rx, framePool, tx, completion, lost)
    }

    constructor (frames: seq<Frame>, fillQueueSize: nat, frameSize: nat, txBatchSize: nat)
      ensures View() == Start(frames, fillQueueSize) && this.frameSize == frameSize && umem == map[]
    {
      var n := Min(|frames| / 2, fillQueueSize);
      fill, framePool := frames[..n], frames[n..];
      rx, tx, completion, lost, umem := [], [], [], [], map[];
      this.frameSize, this.txBatchSize := frameSize, txBatchSize;
    }

    method ProcessCompletionQueue(n: nat)
      requires n <= |completion|
      modifies this
      ensures View() == Completed(old(View()), n) && umem == old(umem)
    {
      var descs := completion[..n];
      completion := completion[n..];
      for i := 0 to |descs|
        invariant framePool == old(framePool) + descs[..i] && completion == old(completion)[n..]
        invariant fill == old(fill) && rx == old(rx) && tx == old(tx) && lost == old(lost) && umem == old(umem)
      {
        framePool := framePool + [descs[i]];
        assert descs[..i + 1] == descs[..i] + [descs[i]];
      }
      assert descs[..|descs|] == descs;
    }

    /** Every received frame goes back to the fill queue, whether its packet was forwarded or
        discarded: blacklisted, or, descriptor by descriptor, of a bad length or not accepted by
        the channel. Only the part the ring refuses is lost. */
    method ProcessRxQueue(n: nat, produced: nat, blacklisted: Packet -> bool, accepted: seq<bool>) returns (forwarded: seq<Packet>)
      requires produced <= n <= |rx| && |accepted| == n
      modifies this
      ensures View() == Received(old(View()), n, produced) && umem == old(umem)
      ensures forwarded == Forwarded(old(rx)[..n], umem, blacklisted, accepted)
    {
      var descs := rx[..n];
      rx := rx[n..];
      forwarded := ForwardBatch(descs, blacklisted, accepted);
      fill := fill + descs[..produced];
      lost := lost + descs[produced..];
    }

    method ForwardBatch(descs: seq<Frame>, blacklisted: Packet -> bool, accepted: seq<bool>) returns (forwarded: seq<Packet>)
      requires |accepted| == |descs|
      ensures forwarded == Forwarded(descs, umem, blacklisted, accepted)
    {
      forwarded := [];
      for i := 0 to |descs|
        invariant forwarded == Forwarded(descs[..i], umem, blacklisted, accepted[..i])
      {
        assert descs[..i + 1][..i] == descs[..i] && accepted[..i + 1][..i] == accepted[..i];
        var raw := Contents(umem, descs[i]);
        if !blacklisted(raw) && accepted[i] { forwarded := forwarded + [raw]; }
      }
      assert descs[..|descs|] == descs && accepted[..|accepted|] == accepted;
    }

    /** Takes packets from the channel until it is empty or a batch is full. */
    method TakeBatch(channel: seq<Packet>) returns (batch: seq<Packet>)
      ensures batch == Batch(channel)
      ensures batch <= channel && (channel != [] ==> batch != []) && (|batch| <= txBatchSize || |batch| == 1)
      ensures |batch| == |channel| || |batch| >= txBatchSize
    {
      batch := [];
      while |batch| < |channel|
        invariant |batch| <= |channel| && batch == channel[..|batch|]
        invariant |batch| == 0 || |batch| < txBatchSize
      {
        batch := batch + [channel[|batch|]];
        if |batch| >= txBatchSize { break; }
      }
    }

    /** What one call takes from the channel: at most a batch, at least one packet if there is one. */
    function Batch(channel: seq<Packet>): (batch: seq<Packet>) {
      channel[..Min(|channel|, if txBatchSize == 0 then 1 else txBatchSize)]
    }

    /** Each batch is submitted or dropped in full; a packet too long for its frame fails it. */
    method ProcessTxQueue(channel: seq<Packet>, completed: nat, accepted: nat)
      returns (r: Result<(nat, nat), ()>)
      requires completed <= |completion|
      requires accepted <= Min(|framePool| + completed, |Batch(channel)|)
      modifies this
      ensures var packets := Batch(channel);
              View() == if packets == [] then old(View())
                        else Sent(Completed(old(View()), completed), packets, frameSize, accepted)
      ensures var packets := Batch(channel);
              umem == if packets == [] then old(umem)
                      else SentMemory(old(umem), Completed(old(View()), completed).pool, packets, frameSize)
      ensures var packets := Batch(channel);
              r.Err? <==> packets != [] && !AllFit(packets[..Min(|old(framePool)| + completed, |packets|)], frameSize)
      ensures r.Ok? ==> r.value.0 == |tx| - |old(tx)| && r.value.0 + r.value.1 == |Batch(channel)|
    {
      var packets := TakeBatch(channel);
      if packets == [] { return Ok((0, 0)); }
      ProcessCompletionQueue(completed);
      if framePool == [] {
        assert packets[..0] == [];
        return Ok((0, |packets|));
      }
      r := Transmit(packets, accepted);
    }

    /** The part of `process_tx_queue` after completions were collected and left some frame. */
    method Transmit(packets: seq<Packet>, accepted: nat) returns (r: Result<(nat, nat), ()>)
      requires packets != [] && framePool != [] && accepted <= Min(|framePool|, |packets|)
      modifies this
      ensures View() == Sent(old(View()), packets, frameSize, accepted)
      ensures umem == SentMemory(old(umem), old(framePool), packets, frameSize)
      ensures r.Err? <==> !AllFit(packets[..Min(|old(framePool)|, |packets|)], frameSize)
      ensures r.Ok? ==> r.value.0 == |tx| - |old(tx)| && r.value.0 + r.value.1 == |packets|
    {
      var total := |packets|;
      var taken := Taken(framePool, total);
      framePool := Left(framePool, total);
      var ok, memory := WriteAll(taken, packets[..|taken|]);
      umem := memory;
      if !ok {
        lost := lost + taken;
        return Err(());
      }
      tx := tx + taken[..accepted];
      framePool := framePool + taken[accepted..];
      r := Ok((accepted, total - accepted));
    }

    /** Writes packet after packet, stopping at the first that does not fit its frame. */
    method WriteAll(frames: seq<Frame>, packets: seq<Packet>) returns (ok: bool, memory: map<Frame, Packet>)
      requires |frames| == |packets|
      ensures ok <==> AllFit(packets, frameSize)
      ensures memory == Stored(umem, frames, packets, frameSize)
    {
      memory := umem;
      for i := 0 to |frames|
        invariant AllFit(packets[..i], frameSize)
        invariant Stored(memory, frames[i..], packets[i..], frameSize) == Stored(umem, frames, packets, frameSize)
      {
        if |packets[i]| > frameSize { return false, memory; }
        memory := memory[frames[i] := packets[i]];
        assert frames[i..][1..] == frames[i + 1..] && packets[i..][1..] == packets[i + 1..];
      }
      assert packets[..|packets|] == packets;
      ok := true;
    }
  }

  /** Memory after writing packets to frames up to the first that does not fit. */
  function Stored(umem: map<Frame, Packet>, frames: seq<Frame>, packets: seq<Packet>, frameSize: nat): (m: map<Frame, Packet>)
    requires |frames| == |packets|
    decreases |frames|
  {
    if frames == [] || |packets[0]| > frameSize then umem
    else Stored(umem[frames[0] := packets[0]], frames[1..], packets[1..], frameSize)
  }

  function SentMemory(umem: map<Frame, Packet>, pool: seq<Frame>, packets: seq<Packet>, frameSize: nat): (m: map<Frame, Packet>) {
    if pool == [] then umem else Stored(umem, Taken(pool, |packets|), packets[..|Taken(pool, |packets|)|], frameSize)
  }

  function Contents(umem: map<Frame, Packet>, f: Frame): (p: Packet) {
    if f in umem then umem[f] else []
  }

  /** The packets of the received frames that are not discarded, in order. */
  function Forwarded(descs: seq<Frame>, umem: map<Frame, Packet>, blacklisted: Packet -> bool, accepted: seq<bool>): (ps: seq<Packet>)
    requires |accepted| == |descs|
  {
    if descs == [] then []
    else
      var n := |descs| - 1;
      var raw := Contents(umem, descs[n]);
      Forwarded(descs[..n], umem, blacklisted, accepted[..n]) + (if !blacklisted(raw) && accepted[n] then [raw] else [])
  }

  // ----- ownership over every run -----

  datatype Op =
    | Complete(n: nat)
    | Receive(n: nat, produced: nat)
    | Send(packets: seq<Packet>, completed: nat, accepted: nat)
    | Arrive(n: nat)   // the kernel fills frames of the fill queue with packets
    | Transmitted(n: nat)   // the kernel has sent frames of the transmit ring

  predicate Possible(f: Frames, op: Op) {
    match op
    case Complete(n) => n <= |f.completion|
    case Receive(n, produced) => produced <= n <= |f.rx|
    case Send(packets, completed, accepted) =>
      completed <= |f.completion| && accepted <= Min(|f.pool| + completed, |packets|)
    case Arrive(n) => n <= |f.fill|
    case Transmitted(n) => n <= |f.tx|
  }

  function Step(f: Frames, op: Op, frameSize: nat): (r: Frames)
    requires Possible(f, op)
  {
    match op
    case Complete(n) => Completed(f, n)
    case Receive(n, produced) => Received(f, n, produced)
    case Send(packets, completed, accepted) =>
      if packets == [] then f else Sent(Completed(f, completed), packets, frameSize, accepted)
    case Arrive(n) => f.(rx := f.rx + f.fill[..n], fill := f.fill[n..])
    case Transmitted(n) => f.(completion := f.completion + f.tx[..n], tx := f.tx[n..])
  }

  /** The two ways a step can lose frames. */
  predicate Loses(f: Frames, op: Op, frameSize: nat)
    requires Possible(f, op)
  {
    match op
    case Receive(n, produced) => produced < n
    case Send(packets, completed, _) =>
      !AllFit(packets[..Min(|f.pool| + completed, |packets|)], frameSize)
    case _ => false
  }

  lemma Resplit(s: seq<Frame>, n: nat, x: Frame)
    requires n <= |s|
    ensures Count(s, x) == Count(s[..n], x) + Count(s[n..], x)
  {
    assert s == s[..n] + s[n..];
  }

  lemma Concat(a: seq<Frame>, b: seq<Frame>, x: Frame)
    ensures Count(a + b, x) == Count(a, x) + Count(b, x)
  {}

  lemma CompletedConserves(f: Frames, n: nat, x: Frame)
    requires n <= |f.completion|
    ensures Completed(f, n).Owners(x) == f.Owners(x)
  {
    Resplit(f.completion, n, x);
  }

  lemma ReceivedConserves(f: Frames, n: nat, produced: nat, x: Frame)
    requires produced <= n <= |f.rx|
    ensures Received(f, n, produced).Owners(x) == f.Owners(x)
  {
    Resplit(f.rx, n, x);
    Resplit(f.rx[..n], produced, x);
    assert f.rx[..n][..produced] == f.rx[..produced] && f.rx[..n][produced..] == f.rx[produced..n];
  }

  lemma SentConserves(f: Frames, packets: seq<Packet>, frameSize: nat, submitted: nat, x: Frame)
    requires submitted <= Min(|f.pool|, |packets|)
    ensures Sent(f, packets, frameSize, submitted).Owners(x) == f.Owners(x)
  {
    var kept, taken := Left(f.pool, |packets|), Taken(f.pool, |packets|);
    Resplit(f.pool, |f.pool| - |taken|, x);
    Resplit(taken, submitted, x);
    Concat(kept, taken[submitted..], x);
    Concat(f.tx, taken[..submitted], x);
    Concat(f.lost, taken, x);
  }

  /** Each step moves frames without making or dropping any. */
  lemma StepConserves(f: Frames, op: Op, frameSize: nat, x: Frame)
    requires Possible(f, op)
    ensures Step(f, op, frameSize).Owners(x) == f.Owners(x)
  {
    match op
    case Complete(n) => CompletedConserves(f, n, x);
    case Receive(n, produced) => ReceivedConserves(f, n, produced, x);
    case Send(packets, completed, accepted) =>
      CompletedConserves(f, completed, x);
      SentConserves(Completed(f, completed), packets, frameSize, accepted, x);
    case Arrive(n) => Resplit(f.fill, n, x);
    case Transmitted(n) => Resplit(f.tx, n, x);
  }

  /** A step loses frames in exactly two cases. */
  lemma StepLoses(f: Frames, op: Op, frameSize: nat)
    requires Possible(f, op)
    ensures |Step(f, op, frameSize).lost| >= |f.lost|
    ensures |Step(f, op, frameSize).lost| == |f.lost| <==> !Loses(f, op, frameSize)
  {
    if op.Send? {
      var g := Completed(f, op.completed);
      var n := Min(|g.pool|, |op.packets|);
      if !AllFit(op.packets[..n], frameSize) { assert n > 0; }
    }
  }

  ghost predicate PossibleRun(f: Frames, ops: seq<Op>, frameSize: nat)
    decreases |ops|
  {
    ops != [] ==> Possible(f, ops[0]) && PossibleRun(Step(f, ops[0], frameSize), ops[1..], frameSize)
  }

  function Run(f: Frames, ops: seq<Op>, frameSize: nat): (r: Frames)
    requires PossibleRun(f, ops, frameSize)
    decreases |ops|
  {
    if ops == [] then f else Run(Step(f, ops[0], frameSize), ops[1..], frameSize)
  }

  /** Some step of the run is one that loses frames. */
  ghost predicate LosesSomewhere(f: Frames, ops: seq<Op>, frameSize: nat)
    requires PossibleRun(f, ops, frameSize)
    decreases |ops|
  {
    ops != [] && (Loses(f, ops[0], frameSize) || LosesSomewhere(Step(f, ops[0], frameSize), ops[1..], frameSize))
  }

  lemma {:induction false} RunConserves(f: Frames, ops: seq<Op>, frameSize: nat, x: Frame)
    requires PossibleRun(f, ops, frameSize)
    ensures Run(f, ops, frameSize).Owners(x) == f.Owners(x)
    ensures |Run(f, ops, frameSize).lost| >= |f.lost|
    ensures |Run(f, ops, frameSize).lost| == |f.lost| <==> !LosesSomewhere(f, ops, frameSize)
    decreases |ops|
  {
    if ops != [] {
      StepConserves(f, ops[0], frameSize, x);
      StepLoses(f, ops[0], frameSize);
      RunConserves(Step(f, ops[0], frameSize), ops[1..], frameSize, x);
    }
  }

  /** In every run of the loop each frame is always in exactly one place, and frames go missing
      exactly when the fill queue refuses some or a packet does not fit its frame. */
  lemma EveryFrameOwnedOnce(frames: seq<Frame>, fillQueueSize: nat, ops: seq<Op>, frameSize: nat, x: Frame)
    requires NoDuplicates(frames) && PossibleRun(Start(frames, fillQueueSize), ops, frameSize)
    ensures var f := Run(Start(frames, fillQueueSize), ops, frameSize);
            && f.Owners(x) == (if x in frames then 1 else 0)
            && (f.lost == [] <==> !LosesSomewhere(Start(frames, fillQueueSize), ops, frameSize))
  {
    Resplit(frames, Min(|frames| / 2, fillQueueSize), x);
    RunConserves(Start(frames, fillQueueSize), ops, frameSize, x);
    OnceEach(frames, x);
  }

  lemma {:induction false} OnceEach(frames: seq<Frame>, x: Frame)
    requires NoDuplicates(frames)
    ensures Count(frames, x) == if x in frames then 1 else 0
  {
    if frames != [] {
      var n := |frames| - 1;
      assert frames == frames[..n] + [frames[n]];
      OnceEach(frames[..n], x);
    }
  }

  // ----- transmitted memory -----

  /** Writing distinct frames leaves every packet in its frame and all other memory alone. */
  lemma {:induction false} StoredExactly(umem: map<Frame, Packet>, frames: seq<Frame>, packets: seq<Packet>, frameSize: nat, x: Frame)
    requires |frames| == |packets| && NoDuplicates(frames)
    ensures x !in frames ==> Contents(Stored(umem, frames, packets, frameSize), x) == Contents(umem, x)
    ensures AllFit(packets, frameSize) ==>
              forall i :: 0 <= i < |frames| && frames[i] == x ==> Contents(Stored(umem, frames, packets, frameSize), x) == packets[i]
    decreases |frames|
  {
    if frames != [] && |packets[0]| <= frameSize {
      StoredExactly(umem[frames[0] := packets[0]], frames[1..], packets[1..], frameSize, x);
      if x in frames && x != frames[0] {
        forall i | 0 <= i < |frames| && frames[i] == x ensures frames[1..][i - 1] == x && packets[1..][i - 1] == packets[i] {}
      }
    }
  }

  /** A transmit step leaves the memory of every frame outside the pool alone, and the frames it
      takes hold the first packets of the batch, in order. */
  lemma SendWritesOnlyItsFrames(umem: map<Frame, Packet>, pool: seq<Frame>, packets: seq<Packet>, frameSize: nat, x: Frame)
    requires NoDuplicates(pool)
    ensures x !in pool ==> Contents(SentMemory(umem, pool, packets, frameSize), x) == Contents(umem, x)
    ensures var taken := Taken(pool, |packets|);
            AllFit(packets[..|taken|], frameSize) ==>
              forall i :: 0 <= i < |taken| && taken[i] == x ==> Contents(SentMemory(umem, pool, packets, frameSize), x) == packets[i]
  {
    var taken := Taken(pool, |packets|);
    forall i | 0 <= i < |taken| ensures taken[i] in pool {}
    StoredExactly(umem, taken, packets[..|taken|], frameSize, x);
  }

  // ----- what is forwarded -----

  /** A received packet is forwarded exactly when it is not blacklisted and its descriptor is accepted. */
  lemma ForwardedOne(d: Frame, umem: map<Frame, Packet>, blacklisted: Packet -> bool, ok: bool)
    ensures Forwarded([d], umem, blacklisted, [ok]) == if ok && !blacklisted(Contents(umem, d)) then [Contents(umem, d)] else []
  {
    assert [d][..0] == [] && [ok][..0] == [];
    assert Forwarded([], umem, blacklisted, []) == [];
  }

  /** Each packet is decided on its own, and the order is kept. */
  lemma {:induction false} ForwardedJoins(
    a: seq<Frame>, b: seq<Frame>, umem: map<Frame, Packet>, blacklisted: Packet -> bool, oka: seq<bool>, okb: seq<bool>)
    requires |oka| == |a| && |okb| == |b|
    ensures Forwarded(a + b, umem, blacklisted, oka + okb) == Forwarded(a, umem, blacklisted, oka) + Forwarded(b, umem, blacklisted, okb)
    decreases |b|
  {
    if b == [] {
      assert a + b == a && oka + okb == oka;
    } else {
      var n := |b| - 1;
      assert (a + b)[..|a + b| - 1] == a + b[..n] && (oka + okb)[..|a + b| - 1] == oka + okb[..n];
      ForwardedJoins(a, b[..n], umem, blacklisted, oka, okb[..n]);
    }
  }

  /** Half of the frames, or as many as the fill queue holds, start there; the pool has the rest. */
  lemma StartSplits(frames: seq<Frame>, fillQueueSize: nat)
    ensures var f := Start(frames, fillQueueSize);
            && f.fill + f.pool == frames && |f.fill| <= fillQueueSize && 2 * |f.fill| <= |frames|
            && (|f.fill| == fillQueueSize || 2 * |f.fill| + 1 >= |frames|)
  {}

  // ----- the two halves never mix -----

  /** In how many places of the receive side, and of the transmit side, frame `x` is. */
  function ReceiveSide(f: Frames, x: Frame): (n: nat) {
    Count(f.fill, x) + Count(f.rx, x)
  }

  function TransmitSide(f: Frames, x: Frame): (n: nat) {
    Count(f.pool, x) + Count(f.tx, x) + Count(f.completion, x)
  }

  lemma SentKeepsSides(f: Frames, packets: seq<Packet>, frameSize: nat, submitted: nat, x: Frame)
    requires submitted <= Min(|f.pool|, |packets|)
    ensures var r := Sent(f, packets, frameSize, submitted);
            ReceiveSide(r, x) == ReceiveSide(f, x) && TransmitSide(r, x) <= TransmitSide(f, x) && Count(f.lost, x) <= Count(r.lost, x)
  {
    SentConserves(f, packets, frameSize, submitted, x);
    var taken := Taken(f.pool, |packets|);
    Concat(f.lost, taken, x);
  }

  lemma StepKeepsSides(f: Frames, op: Op, frameSize: nat, x: Frame)
    requires Possible(f, op)
    ensures var r := Step(f, op, frameSize);
            ReceiveSide(r, x) <= ReceiveSide(f, x) && TransmitSide(r, x) <= TransmitSide(f, x)
  {
    match op
    case Complete(n) => Resplit(f.completion, n, x); Concat(f.pool, f.completion[..n], x);
    case Receive(n, produced) =>
      Resplit(f.rx, n, x);
      Resplit(f.rx[..n], produced, x);
      assert f.rx[..n][..produced] == f.rx[..produced];
      Concat(f.fill, f.rx[..produced], x);
    case Send(packets, completed, accepted) =>
      if packets != [] {
        Resplit(f.completion, completed, x);
        Concat(f.pool, f.completion[..completed], x);
        SentKeepsSides(Completed(f, completed), packets, frameSize, accepted, x);
      }
    case Arrive(n) => Resplit(f.fill, n, x); Concat(f.rx, f.fill[..n], x);
    case Transmitted(n) => Resplit(f.tx, n, x); Concat(f.completion, f.tx[..n], x);
  }

  /** In every run a frame that started on the receive side is never used for transmitting, and the
      other way; without losses each side keeps all its frames. */
  lemma {:induction false} SidesNeverMix(f: Frames, ops: seq<Op>, frameSize: nat, x: Frame)
    requires PossibleRun(f, ops, frameSize)
    ensures var r := Run(f, ops, frameSize);
            && ReceiveSide(r, x) <= ReceiveSide(f, x) && TransmitSide(r, x) <= TransmitSide(f, x)
            && (Count(r.lost, x) == Count(f.lost, x) ==>
                  ReceiveSide(r, x) == ReceiveSide(f, x) && TransmitSide(r, x) == TransmitSide(f, x))
    decreases |ops|
  {
    RunConserves(f, ops, frameSize, x);
    if ops != [] {
      StepKeepsSides(f, ops[0], frameSize, x);
      SidesNeverMix(Step(f, ops[0], frameSize), ops[1..], frameSize, x);
    }
  }
}
