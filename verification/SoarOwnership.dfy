// SOAR blocks and manual ACL rules sharing one ACL row: the transactions of
// net-guardia/src/adapter/persistence/soar_block.rs and acl.rs, and their callers. Times are
// parameters (`datetime('now')`); the IP version is a function of the address text
// (`ip_version_from_str`), so a row is identified without it.

module SoarOwnership {
  import opened Basics

  type Addr = string

  datatype Direction = Source | Destination

  datatype ListType = White | Black

  datatype AclRow = AclRow(direction: Direction, list: ListType, addr: Addr, port: nat)

  datatype Block = Block(addr: Addr, expires: int, unblocked: bool, createdAcl: bool, preserveAcl: bool) {
    predicate Active(now: int) {
      !unblocked && expires > now
    }

    /** The flags under which an unblock may delete the row. */
    predicate OwnsRow() {
      createdAcl && !preserveAcl
    }
  }

  datatype Db = Db(acl: set<AclRow>, blocks: map<nat, Block>, lastId: nat)

  /** The row every SOAR block of an address stands on. */
  function SoarRow(a: Addr): (row: AclRow) {
    AclRow(Source, Black, a, 0)
  }

  predicate OwnedAndActive(db: Db, a: Addr, now: int) {
    exists id :: id in db.blocks && db.blocks[id].addr == a && db.blocks[id].Active(now) && db.blocks[id].OwnsRow()
  }

  predicate OtherActive(db: Db, id: nat, a: Addr, now: int) {
    exists j :: j in db.blocks && j != id && db.blocks[j].addr == a && db.blocks[j].Active(now)
  }

  predicate HasManualRule(db: Db, a: Addr) {
    && (exists row :: row in db.acl && row.addr == a && row.direction == Source && row.list == Black)
    && exists id :: id in db.blocks && db.blocks[id].addr == a && !db.blocks[id].unblocked && !db.blocks[id].OwnsRow()
  }

  function WithBlock(db: Db, id: nat, b: Block): (r: Db) {
    db.(blocks := db.blocks[id := b])
  }

  function CommitBlock(db: Db, a: Addr, expires: int, now: int): (r: Db) {
    var created := SoarRow(a) !in db.acl || OwnedAndActive(db, a, now);
    Db(db.acl + {SoarRow(a)}, db.blocks[db.lastId + 1 := Block(a, expires, false, created, false)], db.lastId + 1)
  }

  function CommitUnblock(db: Db, id: nat, a: Addr, now: int): (r: Db)
    requires id in db.blocks
  {
    var b := db.blocks[id];
    var acl := if b.OwnsRow() && !OtherActive(db, id, a, now) then db.acl - {SoarRow(a)} else db.acl;
    WithBlock(db.(acl := acl), id, b.(unblocked := true))
  }

  function MarkUnblocked(db: Db, id: nat): (r: Db) {
    if id in db.blocks then WithBlock(db, id, db.blocks[id].(unblocked := true)) else db
  }

  function InsertAcl(db: Db, row: AclRow, preserve: bool): (r: Db) {
    Db(db.acl + {row}, if preserve then Preserved(db.blocks, row.addr) else db.blocks, db.lastId)
  }

  function Preserved(blocks: map<nat, Block>, a: Addr): (r: map<nat, Block>)
    ensures r.Keys == blocks.Keys
  {
    map id | id in blocks ::
      if blocks[id].addr == a && !blocks[id].unblocked then blocks[id].(preserveAcl := true) else blocks[id]
  }

  class Database {
    var aclRules: set<AclRow>
    var soarBlocks: map<nat, Block>
    var lastId: nat

    ghost function View(): (db: Db)
      reads this
    {
      Db(aclRules, soarBlocks, lastId)
    }

    constructor ()
      ensures View() == Db({}, map[], 0)
    {
      aclRules, soarBlocks, lastId := {}, map[], 0;
    }

    method CommitSoarBlock(a: Addr, expires: int, now: int) returns (id: nat)
      modifies this
      ensures View() == CommitBlock(old(View()), a, expires, now) && id == lastId == old(lastId) + 1
      ensures SoarRow(a) in aclRules && aclRules - {SoarRow(a)} == old(aclRules) - {SoarRow(a)}
      ensures id in soarBlocks && soarBlocks[id].addr == a && soarBlocks[id].expires == expires && !soarBlocks[id].unblocked
    {
      var existing := SoarRow(a) in aclRules;
      var owned := exists i :: i in soarBlocks && soarBlocks[i].addr == a && soarBlocks[i].Active(now)
                               && soarBlocks[i].OwnsRow();
      var created := !existing || owned;
      lastId := lastId + 1;
      soarBlocks := soarBlocks[lastId := Block(a, expires, false, created, false)];
      id := lastId;
      aclRules := aclRules + {SoarRow(a)};
    }

    /** Fails, changing nothing, when the block does not exist. */
    method CommitSoarUnblock(id: nat, a: Addr, now: int) returns (ok: bool)
      modifies this
      ensures ok <==> id in old(soarBlocks)
      ensures View() == if ok then CommitUnblock(old(View()), id, a, now) else old(View())
    {
      if id !in soarBlocks { return false; }
      var other := exists j :: j in soarBlocks && j != id && soarBlocks[j].addr == a && soarBlocks[j].Active(now);
      if soarBlocks[id].createdAcl && !soarBlocks[id].preserveAcl && !other {
        aclRules := aclRules - {SoarRow(a)};
      }
      soarBlocks := soarBlocks[id := soarBlocks[id].(unblocked := true)];
      ok := true;
    }

    method MarkSoarBlockUnblocked(id: nat)
      modifies this
      ensures View() == MarkUnblocked(old(View()), id)
    {
      if id in soarBlocks { soarBlocks := soarBlocks[id := soarBlocks[id].(unblocked := true)]; }
    }

    method InsertAclRule(row: AclRow, preserve: bool)
      modifies this
      ensures View() == InsertAcl(old(View()), row, preserve)
    {
      aclRules := aclRules + {row};
      if preserve { soarBlocks := Preserved(soarBlocks, row.addr); }
    }

    method DeleteAclRule(row: AclRow)
      modifies this
      ensures View() == old(View()).(acl := old(aclRules) - {row})
    {
      aclRules := aclRules - {row};
    }
  }

  // ----- runs -----

  /** What callers do: manual rules, playbook blocks, manual unblocks, and the TTL sweep. */
  datatype Op =
    | Insert(row: AclRow, preserve: bool)
    | Delete(row: AclRow)
    | Commit(addr: Addr, expires: int, now: int)
    | Unblock(id: nat, now: int)
    | Sweep(id: nat, now: int)

  /** `manual` holds the rows manually added and not manually removed since. */
  datatype World = World(db: Db, manual: set<AclRow>)

  function SweepOne(db: Db, id: nat, now: int): (r: Db)
    requires id in db.blocks
  {
    var a := db.blocks[id].addr;
    if HasManualRule(db, a) then MarkUnblocked(db, id) else CommitUnblock(db, id, a, now)
  }

  function Step(w: World, op: Op): (r: World) {
    match op
    case Insert(row, preserve) => World(InsertAcl(w.db, row, preserve), w.manual + {row})
    case Delete(row) => World(w.db.(acl := w.db.acl - {row}), w.manual - {row})
    case Commit(a, expires, now) => w.(db := CommitBlock(w.db, a, expires, now))
    case Unblock(id, now) =>
      if id in w.db.blocks then w.(db := CommitUnblock(w.db, id, w.db.blocks[id].addr, now)) else w
    case Sweep(id, now) => if id in w.db.blocks then w.(db := SweepOne(w.db, id, now)) else w
  }

  function Run(w: World, ops: seq<Op>): (r: World)
    decreases |ops|
  {
    if ops == [] then w else Run(Step(w, ops[0]), ops[1..])
  }

  function Start(rules: set<AclRow>): (w: World) {
    World(Db(rules, map[], 0), rules)
  }

  // ----- manual rows survive -----

  /** `should_preserve_active_soar_blocks`: source-blacklist inserts set the flag. */
  predicate FlagSet(op: Op) {
    op.Insert? && op.row.direction == Source && op.row.list == Black ==> op.preserve
  }

  /** The operation does not unblock a block a second time. */
  predicate UnblocksOnce(w: World, op: Op) {
    (op.Unblock? || op.Sweep?) && op.id in w.db.blocks ==> !w.db.blocks[op.id].unblocked
  }

  ghost predicate OnceRun(w: World, ops: seq<Op>)
    decreases |ops|
  {
    ops != [] ==> FlagSet(ops[0]) && UnblocksOnce(w, ops[0]) && OnceRun(Step(w, ops[0]), ops[1..])
  }

  ghost predicate ManualSafe(w: World) {
    && w.manual <= w.db.acl
    && (forall id :: id in w.db.blocks ==> id <= w.db.lastId)
    && forall id :: id in w.db.blocks && SoarRow(w.db.blocks[id].addr) in w.manual && !w.db.blocks[id].unblocked
         ==> !w.db.blocks[id].OwnsRow()
  }

  /** In any state of a well-behaved run, an unblock takes away a manual row exactly when its
      block was unblocked before, with ownership flags still standing and no other active block. */
  lemma UnblockDeletesManual(w: World, id: nat, now: int)
    requires ManualSafe(w) && id in w.db.blocks
    ensures var b := w.db.blocks[id];
            !(w.manual <= Step(w, Unblock(id, now)).db.acl) <==>
            && SoarRow(b.addr) in w.manual && b.unblocked && b.OwnsRow()
            && !OtherActive(w.db, id, b.addr, now)
  {
    var b := w.db.blocks[id];
    var acl := Step(w, Unblock(id, now)).db.acl;
    if b.OwnsRow() && !OtherActive(w.db, id, b.addr, now) {
      assert acl == w.db.acl - {SoarRow(b.addr)};
    } else {
      assert acl == w.db.acl;
    }
  }

  lemma ManualSafeStep(w: World, op: Op)
    requires ManualSafe(w) && FlagSet(op) && UnblocksOnce(w, op)
    ensures ManualSafe(Step(w, op))
  {
    if op.Unblock? && op.id in w.db.blocks { UnblockDeletesManual(w, op.id, op.now); }
    if op.Sweep? && op.id in w.db.blocks { UnblockDeletesManual(w, op.id, op.now); }
  }

  /** No SOAR unblock ever deletes a manual row, whatever the order of operations. */
  lemma {:induction false} ManualRowsSurvive(w: World, ops: seq<Op>)
    requires ManualSafe(w) && OnceRun(w, ops)
    ensures ManualSafe(Run(w, ops)) && Run(w, ops).manual <= Run(w, ops).db.acl
    decreases |ops|
  {
    if ops != [] {
      ManualSafeStep(w, ops[0]);
      ManualRowsSurvive(Step(w, ops[0]), ops[1..]);
    }
  }

  /** The operation takes away a manual row: a second unblock whose flags still stand and that no
      other active block, and for a sweep no manual rule the database still sees, holds back. */
  predicate DeletesManual(w: World, op: Op) {
    && (op.Unblock? || op.Sweep?) && op.id in w.db.blocks
    && var b := w.db.blocks[op.id];
       && SoarRow(b.addr) in w.manual && b.unblocked && b.OwnsRow()
       && !OtherActive(w.db, op.id, b.addr, op.now)
       && (op.Sweep? ==> !HasManualRule(w.db, b.addr))
  }

  lemma StepDeletesManual(w: World, op: Op)
    requires ManualSafe(w) && FlagSet(op)
    ensures Step(w, op).manual <= Step(w, op).db.acl <==> !DeletesManual(w, op)
    ensures ManualSafe(Step(w, op)) <==> !DeletesManual(w, op)
  {
    if (op.Unblock? || op.Sweep?) && op.id in w.db.blocks { UnblockDeletesManual(w, op.id, op.now); }
  }

  ghost predicate FlagsSet(ops: seq<Op>) {
    forall i :: 0 <= i < |ops| ==> FlagSet(ops[i])
  }

  ghost predicate NeverDeletes(w: World, ops: seq<Op>)
    decreases |ops|
  {
    ops != [] ==> !DeletesManual(w, ops[0]) && NeverDeletes(Step(w, ops[0]), ops[1..])
  }

  /** The manual rows are all there at every point of the run. */
  ghost predicate RowsKept(w: World, ops: seq<Op>)
    decreases |ops|
  {
    w.manual <= w.db.acl && (ops != [] ==> RowsKept(Step(w, ops[0]), ops[1..]))
  }

  /** With the flag set, manual rows survive a run exactly when no step of it is such an unblock. */
  lemma {:induction false} ManualRowsSurviveExactly(w: World, ops: seq<Op>)
    requires ManualSafe(w) && FlagsSet(ops)
    ensures RowsKept(w, ops) <==> NeverDeletes(w, ops)
    decreases |ops|
  {
    if ops != [] {
      StepDeletesManual(w, ops[0]);
      if !DeletesManual(w, ops[0]) {
        ManualRowsSurviveExactly(Step(w, ops[0]), ops[1..]);
      } else {
        assert !RowsKept(Step(w, ops[0]), ops[1..]);
      }
    }
  }

  // ----- active blocks are enforced -----

  function Clock(op: Op, clock: int): (t: int) {
    if op.Commit? || op.Unblock? || op.Sweep? then op.now else clock
  }

  /** The clock never runs backwards, and nobody deletes a SOAR row by hand. */
  ghost predicate TimedRun(ops: seq<Op>, clock: int)
    decreases |ops|
  {
    ops != [] ==>
      && clock <= Clock(ops[0], clock)
      && (ops[0].Delete? ==> !IsSoarRow(ops[0].row))
      && TimedRun(ops[1..], Clock(ops[0], clock))
  }

  predicate IsSoarRow(row: AclRow) {
    row == SoarRow(row.addr)
  }

  function EndClock(ops: seq<Op>, clock: int): (t: int) {
    if ops == [] then clock else EndClock(ops[1..], Clock(ops[0], clock))
  }

  ghost predicate Enforced(db: Db, now: int) {
    forall id :: id in db.blocks && db.blocks[id].Active(now) ==> SoarRow(db.blocks[id].addr) in db.acl
  }

  lemma EnforcedStep(w: World, op: Op, clock: int)
    requires Enforced(w.db, clock) && clock <= Clock(op, clock)
    requires op.Delete? ==> !IsSoarRow(op.row)
    ensures Enforced(Step(w, op).db, Clock(op, clock))
  {
    var now := Clock(op, clock);
    forall id | id in w.db.blocks && w.db.blocks[id].Active(now) ensures SoarRow(w.db.blocks[id].addr) in w.db.acl {
      assert w.db.blocks[id].Active(clock);
    }
    if (op.Unblock? || op.Sweep?) && op.id in w.db.blocks {
      var a := w.db.blocks[op.id].addr;
      forall id | id in w.db.blocks && id != op.id && w.db.blocks[id].Active(now)
        ensures SoarRow(w.db.blocks[id].addr) in Step(w, op).db.acl
      {
        if w.db.blocks[id].addr == a { assert OtherActive(w.db, op.id, a, now); }
      }
    }
  }

  /** Without manual deletes of its row, each block neither unblocked nor expired has its ACL row,
      even if blocks are unblocked repeatedly. */
  lemma {:induction false} ActiveBlocksEnforced(w: World, ops: seq<Op>, clock: int)
    requires Enforced(w.db, clock) && TimedRun(ops, clock)
    ensures Enforced(Run(w, ops).db, EndClock(ops, clock))
    decreases |ops|
  {
    if ops != [] {
      EnforcedStep(w, ops[0], clock);
      ActiveBlocksEnforced(Step(w, ops[0]), ops[1..], Clock(ops[0], clock));
    }
  }

  // ----- what a committed block is, from the operations alone -----

  /** Some operation unblocks block `id`. */
  ghost predicate UnblockedIn(ops: seq<Op>, id: nat) {
    exists i :: 0 <= i < |ops| && (ops[i].Unblock? || ops[i].Sweep?) && ops[i].id == id
  }

  lemma UnblockedInTail(ops: seq<Op>, id: nat)
    requires ops != []
    ensures UnblockedIn(ops, id) <==> ((ops[0].Unblock? || ops[0].Sweep?) && ops[0].id == id) || UnblockedIn(ops[1..], id)
  {
    if UnblockedIn(ops[1..], id) {
      var i :| 0 <= i < |ops[1..]| && (ops[1..][i].Unblock? || ops[1..][i].Sweep?) && ops[1..][i].id == id;
      assert ops[i + 1] == ops[1..][i];
    }
    if i :| 0 <= i < |ops| && (ops[i].Unblock? || ops[i].Sweep?) && ops[i].id == id {
      if i > 0 { assert ops[1..][i - 1] == ops[i]; }
    }
  }

  lemma BlockStep(w: World, op: Op, id: nat)
    requires id in w.db.blocks && id <= w.db.lastId
    ensures var r := Step(w, op).db;
            && id in r.blocks && id <= r.lastId
            && r.blocks[id].addr == w.db.blocks[id].addr && r.blocks[id].expires == w.db.blocks[id].expires
            && (r.blocks[id].unblocked <==> w.db.blocks[id].unblocked || ((op.Unblock? || op.Sweep?) && op.id == id))
  {}

  /** A block keeps its address and expiry, and is unblocked by its own unblocks and nothing else. */
  lemma {:induction false} BlockPersists(w: World, ops: seq<Op>, id: nat)
    requires id in w.db.blocks && id <= w.db.lastId
    ensures var r := Run(w, ops).db;
            && id in r.blocks
            && r.blocks[id].addr == w.db.blocks[id].addr && r.blocks[id].expires == w.db.blocks[id].expires
            && (r.blocks[id].unblocked <==> w.db.blocks[id].unblocked || UnblockedIn(ops, id))
    decreases |ops|
  {
    if ops != [] {
      BlockStep(w, ops[0], id);
      BlockPersists(Step(w, ops[0]), ops[1..], id);
      UnblockedInTail(ops, id);
    }
  }

  /** A block committed for `a` until `expires` is, after any further operations, a block of `a` that
      is active at time `t` exactly when `t` is before `expires` and it has not been unblocked. */
  lemma CommittedBlockIsActive(w: World, a: Addr, expires: int, now: int, ops: seq<Op>, t: int)
    ensures var r, id := Run(Step(w, Commit(a, expires, now)), ops).db, w.db.lastId + 1;
            && id in r.blocks && r.blocks[id].addr == a
            && (r.blocks[id].Active(t) <==> t < expires && !UnblockedIn(ops, id))
  {
    BlockPersists(Step(w, Commit(a, expires, now)), ops, w.db.lastId + 1);
  }

  ghost predicate NeverDeleted(ops: seq<Op>, row: AclRow) {
    forall i :: 0 <= i < |ops| && ops[i].Delete? ==> ops[i].row != row
  }

  ghost predicate ForwardClock(ops: seq<Op>, clock: int)
    decreases |ops|
  {
    ops != [] ==> clock <= Clock(ops[0], clock) && ForwardClock(ops[1..], Clock(ops[0], clock))
  }

  lemma {:induction false} EndIsLater(ops: seq<Op>, clock: int)
    requires ForwardClock(ops, clock)
    ensures clock <= EndClock(ops, clock)
    decreases |ops|
  {
    if ops != [] { EndIsLater(ops[1..], Clock(ops[0], clock)); }
  }

  lemma RowStep(w: World, op: Op, id: nat, clock: int)
    requires id in w.db.blocks && id <= w.db.lastId && SoarRow(w.db.blocks[id].addr) in w.db.acl
    requires !w.db.blocks[id].unblocked && Clock(op, clock) < w.db.blocks[id].expires
    requires !((op.Unblock? || op.Sweep?) && op.id == id) && !(op.Delete? && op.row == SoarRow(w.db.blocks[id].addr))
    ensures SoarRow(w.db.blocks[id].addr) in Step(w, op).db.acl
  {
    if (op.Unblock? || op.Sweep?) && op.id in w.db.blocks && w.db.blocks[op.id].addr == w.db.blocks[id].addr {
      assert w.db.blocks[id].Active(op.now);
      assert OtherActive(w.db, op.id, w.db.blocks[id].addr, op.now);
    }
  }

  lemma {:induction false} RowStays(w: World, ops: seq<Op>, id: nat, clock: int)
    requires id in w.db.blocks && id <= w.db.lastId && SoarRow(w.db.blocks[id].addr) in w.db.acl && !w.db.blocks[id].unblocked
    requires ForwardClock(ops, clock) && EndClock(ops, clock) < w.db.blocks[id].expires
    requires !UnblockedIn(ops, id) && NeverDeleted(ops, SoarRow(w.db.blocks[id].addr))
    ensures SoarRow(w.db.blocks[id].addr) in Run(w, ops).db.acl
    decreases |ops|
  {
    if ops != [] {
      UnblockedInTail(ops, id);
      EndIsLater(ops[1..], Clock(ops[0], clock));
      RowStep(w, ops[0], id, clock);
      BlockStep(w, ops[0], id);
      RowStays(Step(w, ops[0]), ops[1..], id, Clock(ops[0], clock));
    }
  }

  /** After a commit, the row of its address is there at every time before the expiry, as long as
      the block has not been unblocked and nobody has deleted the row by hand: whatever other blocks,
      rules and addresses go through. */
  lemma CommittedRowStays(w: World, a: Addr, expires: int, now: int, ops: seq<Op>)
    requires ForwardClock(ops, now) && EndClock(ops, now) < expires
    requires !UnblockedIn(ops, w.db.lastId + 1) && NeverDeleted(ops, SoarRow(a))
    ensures SoarRow(a) in Run(Step(w, Commit(a, expires, now)), ops).db.acl
  {
    RowStays(Step(w, Commit(a, expires, now)), ops, w.db.lastId + 1, now);
  }

  // ----- the row goes with the last block -----

  ghost predicate Pending(db: Db, a: Addr) {
    exists id :: id in db.blocks && db.blocks[id].addr == a && !db.blocks[id].unblocked
  }

  /** A block committed now will own the row. */
  predicate CommitOwns(db: Db, a: Addr, now: int) {
    SoarRow(a) !in db.acl || OwnedAndActive(db, a, now)
  }

  /** The operation adds no manual rule for `a` and unblocks no block a second time. */
  predicate SoarOnly(w: World, op: Op, a: Addr) {
    (op.Insert? ==> op.row.addr != a) && UnblocksOnce(w, op)
  }

  /** Address `a` has no manual rules, and each block committed on it owns the row. */
  ghost predicate SoarOnlyRun(w: World, ops: seq<Op>, a: Addr)
    decreases |ops|
  {
    ops != [] ==>
      && SoarOnly(w, ops[0], a)
      && (ops[0].Commit? && ops[0].addr == a ==> CommitOwns(w.db, a, ops[0].now))
      && SoarOnlyRun(Step(w, ops[0]), ops[1..], a)
  }

  ghost predicate SoarOwned(db: Db, a: Addr) {
    && (SoarRow(a) in db.acl ==> Pending(db, a))
    && (forall id :: id in db.blocks ==> id <= db.lastId)
    && forall id :: id in db.blocks && db.blocks[id].addr == a && !db.blocks[id].unblocked ==> db.blocks[id].OwnsRow()
  }

  lemma UnblockKeepsOwned(db: Db, id: nat, a: Addr, now: int)
    requires SoarOwned(db, a) && id in db.blocks && !db.blocks[id].unblocked
    ensures SoarOwned(CommitUnblock(db, id, db.blocks[id].addr, now), a)
  {
    var r := CommitUnblock(db, id, db.blocks[id].addr, now);
    if SoarRow(a) in r.acl {
      if db.blocks[id].addr == a {
        var j :| j in db.blocks && j != id && db.blocks[j].addr == a && db.blocks[j].Active(now);
        assert r.blocks[j] == db.blocks[j];
      } else {
        var j :| j in db.blocks && db.blocks[j].addr == a && !db.blocks[j].unblocked;
        assert r.blocks[j] == db.blocks[j];
      }
    }
  }

  lemma SoarOwnedStep(w: World, op: Op, a: Addr)
    requires SoarOwned(w.db, a) && SoarOnly(w, op, a)
    requires op.Commit? && op.addr == a ==> CommitOwns(w.db, a, op.now)
    ensures SoarOwned(Step(w, op).db, a)
  {
    var r := Step(w, op).db;
    match op
    case Insert(row, preserve) =>
      if SoarRow(a) in r.acl {
        var j :| j in w.db.blocks && w.db.blocks[j].addr == a && !w.db.blocks[j].unblocked;
        assert r.blocks[j] == w.db.blocks[j];
      }
    case Delete(row) =>
      if SoarRow(a) in r.acl { assert Pending(w.db, a); }
    case Commit(addr, expires, now) =>
      assert r.blocks[r.lastId].addr == addr && !r.blocks[r.lastId].unblocked;
      if addr != a && SoarRow(a) in r.acl {
        var j :| j in w.db.blocks && w.db.blocks[j].addr == a && !w.db.blocks[j].unblocked;
        assert r.blocks[j] == w.db.blocks[j];
      }
    case Unblock(id, now) =>
      if id in w.db.blocks { UnblockKeepsOwned(w.db, id, a, now); }
    case Sweep(id, now) =>
      if id in w.db.blocks {
        if w.db.blocks[id].addr == a || !HasManualRule(w.db, w.db.blocks[id].addr) {
          UnblockKeepsOwned(w.db, id, a, now);
        } else if SoarRow(a) in r.acl {
          var j :| j in w.db.blocks && w.db.blocks[j].addr == a && !w.db.blocks[j].unblocked;
          assert r.blocks[j] == w.db.blocks[j];
        }
      }
  }

  /** Once the last block of a SOAR-only address is unblocked, its row is gone. */
  lemma {:induction false} LastUnblockRemovesRow(w: World, ops: seq<Op>, a: Addr)
    requires SoarOwned(w.db, a) && SoarOnlyRun(w, ops, a)
    ensures SoarOwned(Run(w, ops).db, a)
    ensures !Pending(Run(w, ops).db, a) ==> SoarRow(a) !in Run(w, ops).db.acl
    decreases |ops|
  {
    if ops != [] {
      SoarOwnedStep(w, ops[0], a);
      LastUnblockRemovesRow(Step(w, ops[0]), ops[1..], a);
    }
  }

  // ----- when the row goes, exactly -----

  /** A commit leaves every pending block an owner exactly when the row is new or an active owner
      vouches for it. */
  lemma CommitOwnsExactly(db: Db, a: Addr, expires: int, now: int)
    requires SoarOwned(db, a)
    ensures SoarOwned(CommitBlock(db, a, expires, now), a) <==> CommitOwns(db, a, now)
  {
    var r := CommitBlock(db, a, expires, now);
    assert r.blocks[r.lastId].addr == a && !r.blocks[r.lastId].unblocked;
    if CommitOwns(db, a, now) {
      assert Step(World(db, {}), Commit(a, expires, now)).db == r;
      SoarOwnedStep(World(db, {}), Commit(a, expires, now), a);
    }
  }

  /** Unblocking the last pending block removes the row exactly when that block owns it. */
  lemma LastUnblockExactly(db: Db, id: nat, a: Addr, now: int)
    requires id in db.blocks && db.blocks[id].addr == a
    requires forall j :: j in db.blocks && db.blocks[j].addr == a && !db.blocks[j].unblocked ==> j == id
    ensures SoarRow(a) !in CommitUnblock(db, id, a, now).acl <==> SoarRow(a) !in db.acl || db.blocks[id].OwnsRow()
  {}

  /** The row is left behind by blocks that are all unblocked. */
  ghost predicate Leaked(db: Db, a: Addr) {
    SoarRow(a) in db.acl && !Pending(db, a)
  }

  /** No continuation on a SOAR-only address whose commits own the row leaves it behind. */
  ghost predicate Leakproof(w: World, a: Addr) {
    forall ops :: SoarOnlyRun(w, ops, a) ==> !Leaked(Run(w, ops).db, a)
  }

  /** Blocks of an owned address that are unblocked once they expire let every commit own the row. */
  lemma NoneExpiredOwns(db: Db, a: Addr, now: int)
    requires SoarOwned(db, a)
    requires forall id :: id in db.blocks && db.blocks[id].addr == a && !db.blocks[id].unblocked ==> db.blocks[id].expires > now
    ensures CommitOwns(db, a, now)
  {
    if SoarRow(a) in db.acl {
      var j :| j in db.blocks && db.blocks[j].addr == a && !db.blocks[j].unblocked;
      assert db.blocks[j].Active(now) && db.blocks[j].OwnsRow();
    }
  }

  /** With a pending block that does not own the row, sweeping the others, all expired, and
      unblocking it leaves the row behind. */
  lemma {:induction false} LeakingRun(w: World, a: Addr, n: nat, now: int, others: set<nat>) returns (ops: seq<Op>)
    requires n in w.db.blocks && w.db.blocks[n].addr == a && !w.db.blocks[n].unblocked && !w.db.blocks[n].OwnsRow()
    requires SoarRow(a) in w.db.acl && n !in others
    requires forall j :: j in others && j in w.db.blocks ==> w.db.blocks[j].expires <= now
    requires forall j :: j in w.db.blocks && w.db.blocks[j].addr == a && !w.db.blocks[j].unblocked <==> j in others + {n}
    ensures SoarOnlyRun(w, ops, a) && Leaked(Run(w, ops).db, a)
    decreases |others|
  {
    if others == {} {
      ops := [Unblock(n, now)];
      var r := Step(w, ops[0]);
      assert ops[1..] == [] && Run(r, []) == r;
      assert r.db.acl == w.db.acl && r.db.blocks == w.db.blocks[n := w.db.blocks[n].(unblocked := true)];
    } else {
      var j :| j in others;
      assert j in others + {n};
      var op := Sweep(j, now);
      assert HasManualRule(w.db, a);
      var r := Step(w, op);
      assert r.db.acl == w.db.acl && r.db.blocks == w.db.blocks[j := w.db.blocks[j].(unblocked := true)];
      var rest := LeakingRun(r, a, n, now, others - {j});
      ops := [op] + rest;
      assert ops[1..] == rest;
    }
  }

  /** A commit is leakproof exactly when it owns the row: a commit over nothing but expired blocks
      has a continuation that leaves the row behind for good. */
  lemma CommitIsLeakproofExactly(w: World, a: Addr, expires: int, now: int)
    requires SoarOwned(w.db, a)
    ensures Leakproof(Step(w, Commit(a, expires, now)), a) <==> CommitOwns(w.db, a, now)
  {
    var r := Step(w, Commit(a, expires, now));
    if CommitOwns(w.db, a, now) {
      CommitOwnsExactly(w.db, a, expires, now);
      OwnedIsLeakproof(r, a);
    } else {
      var others := set j | j in w.db.blocks && w.db.blocks[j].addr == a && !w.db.blocks[j].unblocked;
      forall j | j in others ensures w.db.blocks[j].expires <= now {
        assert w.db.blocks[j].OwnsRow();
      }
      var ops := LeakingRun(r, a, r.db.lastId, now, others);
    }
  }

  lemma OwnedIsLeakproof(w: World, a: Addr)
    requires SoarOwned(w.db, a)
    ensures Leakproof(w, a)
  {
    forall ops | SoarOnlyRun(w, ops, a) ensures !Leaked(Run(w, ops).db, a) {
      LastUnblockRemovesRow(w, ops, a);
    }
  }

  ghost predicate SoarOnlyOps(w: World, ops: seq<Op>, a: Addr)
    decreases |ops|
  {
    ops != [] ==> SoarOnly(w, ops[0], a) && SoarOnlyOps(Step(w, ops[0]), ops[1..], a)
  }

  ghost predicate AlwaysLeakproof(w: World, ops: seq<Op>, a: Addr)
    decreases |ops|
  {
    Leakproof(w, a) && (ops != [] ==> AlwaysLeakproof(Step(w, ops[0]), ops[1..], a))
  }

  /** Over every run on a SOAR-only address: the row is safe from leaking at each point exactly
      when each block committed on the address owns the row. */
  lemma {:induction false} RowIsLeakproofExactly(w: World, ops: seq<Op>, a: Addr)
    requires SoarOwned(w.db, a) && SoarOnlyOps(w, ops, a)
    ensures AlwaysLeakproof(w, ops, a) <==> SoarOnlyRun(w, ops, a)
    decreases |ops|
  {
    OwnedIsLeakproof(w, a);
    if ops != [] {
      if ops[0].Commit? && ops[0].addr == a && !CommitOwns(w.db, a, ops[0].now) {
        CommitIsLeakproofExactly(w, a, ops[0].expires, ops[0].now);
      } else {
        SoarOwnedStep(w, ops[0], a);
        RowIsLeakproofExactly(Step(w, ops[0]), ops[1..], a);
      }
    }
  }

  // ----- runs that fail -----

  /** Unblocking a block a second time deletes a rule the operator has added meanwhile. */
  lemma SecondUnblockDeletesManualRule()
    ensures var w := Run(Start({}), [Commit("a", 10, 0), Unblock(1, 1), Insert(SoarRow("a"), true), Unblock(1, 2)]);
            SoarRow("a") in w.manual && SoarRow("a") !in w.db.acl
  {
    var ops := [Commit("a", 10, 0), Unblock(1, 1), Insert(SoarRow("a"), true), Unblock(1, 2)];
    var w1 := Step(Start({}), ops[0]);
    assert w1.db.blocks == map[1 := Block("a", 10, false, true, false)];
    var w2 := Step(w1, ops[1]);
    assert w2.db.blocks == map[1 := Block("a", 10, true, true, false)];
    var w3 := Step(w2, ops[2]);
    assert w3.db.blocks == w2.db.blocks;
    var w4 := Step(w3, ops[3]);
    assert ops[1..][0] == ops[1] && ops[1..][1..][0] == ops[2] && ops[1..][1..][1..][0] == ops[3];
    assert Run(w4, []) == w4 && ops[1..][1..][1..][1..] == [];
    assert Run(w3, ops[1..][1..][1..]) == w4;
  }

  /** A block committed over an expired, not yet unblocked one leaves its row behind for good. */
  lemma ExpiredBlockLeaksRow()
    ensures var w := Run(Start({}), [Commit("a", 5, 0), Commit("a", 20, 10), Sweep(1, 10), Unblock(2, 12)]);
            !Pending(w.db, "a") && SoarRow("a") in w.db.acl && w.manual == {}
  {
    var ops := [Commit("a", 5, 0), Commit("a", 20, 10), Sweep(1, 10), Unblock(2, 12)];
    var w1 := Step(Start({}), ops[0]);
    assert w1.db.blocks == map[1 := Block("a", 5, false, true, false)];
    var w2 := Step(w1, ops[1]);
    assert w2.db.blocks == map[1 := Block("a", 5, false, true, false), 2 := Block("a", 20, false, false, false)];
    assert HasManualRule(w2.db, "a") by { assert SoarRow("a") in w2.db.acl && 2 in w2.db.blocks; }
    var w3 := Step(w2, ops[2]);
    assert w3.db.blocks == map[1 := Block("a", 5, true, true, false), 2 := Block("a", 20, false, false, false)];
    var w4 := Step(w3, ops[3]);
    assert ops[1..][0] == ops[1] && ops[1..][1..][0] == ops[2] && ops[1..][1..][1..][0] == ops[3];
    assert Run(w4, []) == w4 && ops[1..][1..][1..][1..] == [];
    assert Run(w3, ops[1..][1..][1..]) == w4;
  }
}
