// The hash-chained audit log of net-guardia/src/adapter/persistence/audit.rs. SHA-256 with hex
// output is a parameter: nothing is assumed of it, and tampering is reduced to a collision.

module AuditChain {
  import opened Basics

  /** UTF-8 text whose length fits the eight-byte prefix (`part.len() as u64`). */
  type Text = s: seq<Byte> | |s| < 0x1_0000_0000_0000_0000

  type Digest = seq<Byte> -> Text

  datatype Row = Row(id: int, ts: Text, actor: Text, action: Text, detail: Text, prevHash: Text, rowHash: Text) {
    function Parts(): (parts: seq<Text>) {
      [ts, actor, action, detail, prevHash]
    }
  }

  // ----- the hashed encoding -----

  function Pow256(k: nat): (p: nat)
    ensures p > 0
  {
    if k == 0 then 1 else 256 * Pow256(k - 1)
  }

  /** The low `k` bytes of `n`, most significant first (`to_be_bytes`). */
  function BigEndian(n: nat, k: nat): (s: seq<Byte>)
    ensures |s| == k
  {
    if k == 0 then [] else BigEndian(n / 256, k - 1) + [n % 256]
  }

  lemma {:induction false} BigEndianInjective(n: nat, m: nat, k: nat)
    requires n < Pow256(k) && m < Pow256(k) && BigEndian(n, k) == BigEndian(m, k)
    ensures n == m
  {
    if k > 0 {
      var a, b := BigEndian(n, k), BigEndian(m, k);
      assert a[k - 1] == n % 256 && b[k - 1] == m % 256;
      assert a[..k - 1] == BigEndian(n / 256, k - 1) && b[..k - 1] == BigEndian(m / 256, k - 1);
      BigEndianInjective(n / 256, m / 256, k - 1);
    }
  }

  function Encode(parts: seq<Text>): (s: seq<Byte>) {
    if parts == [] then [] else BigEndian(|parts[0]|, 8) + parts[0] + Encode(parts[1..])
  }

  /** Length prefixes make the concatenation of equally many fields unambiguous. */
  lemma {:induction false} EncodeInjective(a: seq<Text>, b: seq<Text>)
    requires |a| == |b| && Encode(a) == Encode(b)
    ensures a == b
  {
    if a != [] {
      var s, t := Encode(a), Encode(b);
      var n, m := |a[0]|, |b[0]|;
      assert s[..8] == BigEndian(n, 8) && t[..8] == BigEndian(m, 8);
      assert Pow256(8) == 0x1_0000_0000_0000_0000 by { assert Pow256(4) == 0x1_0000_0000; }
      BigEndianInjective(n, m, 8);
      assert s[8..8 + n] == a[0] && t[8..8 + n] == b[0];
      assert s[8 + n..] == Encode(a[1..]) && t[8 + n..] == Encode(b[1..]);
      EncodeInjective(a[1..], b[1..]);
      assert a == [a[0]] + a[1..] && b == [b[0]] + b[1..];
    }
  }

  /** `audit_row_hash` over the fields of a row. */
  function HashOf(h: Digest, row: Row): (t: Text) {
    h(Encode(row.Parts()))
  }

  method AuditRowHash(h: Digest, parts: seq<Text>) returns (t: Text)
    ensures t == h(Encode(parts))
  {
    var fed: seq<Byte> := [];
    for i := 0 to |parts|
      invariant Encode(parts) == fed + Encode(parts[i..])
    {
      fed := fed + BigEndian(|parts[i]|, 8);
      fed := fed + parts[i];
      assert parts[i..][1..] == parts[i + 1..];
    }
    assert parts[|parts|..] == [] && fed + [] == fed;
    t := h(fed);
  }

  // ----- verification -----

  datatype AuditError = CheckpointMissing(id: int) | PrevHashMismatch(id: int) | RowHashMismatch(id: int)

  predicate Linked(h: Digest, prev: Text, rows: seq<Row>)
    decreases |rows|
  {
    rows == [] ||
    (rows[0].prevHash == prev && rows[0].rowHash == HashOf(h, rows[0]) && Linked(h, rows[0].rowHash, rows[1..]))
  }

  /** The first defect found walking the rows in order. */
  function FirstDefect(h: Digest, prev: Text, rows: seq<Row>): (e: Option<AuditError>)
    ensures e.None? <==> Linked(h, prev, rows)
    decreases |rows|
  {
    if rows == [] then None
    else if rows[0].prevHash != prev then Some(PrevHashMismatch(rows[0].id))
    else if HashOf(h, rows[0]) != rows[0].rowHash then Some(RowHashMismatch(rows[0].id))
    else FirstDefect(h, rows[0].rowHash, rows[1..])
  }

  function LastHash(start: Text, rows: seq<Row>): (t: Text) {
    if rows == [] then start else rows[|rows| - 1].rowHash
  }

  predicate Ascending(rows: seq<Row>) {
    && (forall i :: 0 <= i < |rows| ==> rows[i].id > 0)
    && forall i, j :: 0 <= i < j < |rows| ==> rows[i].id < rows[j].id
  }

  /** How many rows, in id order, have an id of at most `id`. */
  function UpTo(rows: seq<Row>, id: int): (n: nat)
    ensures n <= |rows|
    ensures Ascending(rows) ==> forall i :: 0 <= i < |rows| ==> (i < n <==> rows[i].id <= id)
  {
    if rows == [] || rows[0].id > id then 0
    else
      assert Ascending(rows) ==> Ascending(rows[1..]);
      var n := UpTo(rows[1..], id);
      assert Ascending(rows) ==> forall i :: 0 < i < |rows| ==> rows[i] == rows[1..][i - 1];
      1 + n
  }

  class AuditLog {
    var rows: seq<Row>
    var lastId: nat

    ghost predicate Valid()
      reads this
    {
      Ascending(rows) && forall i :: 0 <= i < |rows| ==> rows[i].id <= lastId
    }

    constructor ()
      ensures Valid() && rows == []
    {
      rows, lastId := [], 0;
    }

    /** Appends a row chained to the last one; a log that verified still verifies. */
    method InsertAuditLog(h: Digest, ts: Text, actor: Text, action: Text, detail: Text)
      requires Valid()
      modifies this
      ensures Valid() && |rows| == |old(rows)| + 1 && rows[..|rows| - 1] == old(rows)
      ensures rows[|rows| - 1].Parts() == [ts, actor, action, detail, LastHash([], old(rows))]
      ensures Linked(h, [], old(rows)) ==> Linked(h, [], rows)
    {
      var prev: Text := if rows == [] then [] else rows[|rows| - 1].rowHash;
      var hash := AuditRowHash(h, [ts, actor, action, detail, prev]);
      lastId := lastId + 1;
      var row := Row(lastId, ts, actor, action, detail, prev, hash);
      LinkedAppend(h, [], rows, [row]);
      rows := rows + [row];
    }

    /** Accepts exactly the logs whose rows after the checkpoint link on from it; otherwise reports
        the missing checkpoint or the first defective row. */
    method VerifyChain(h: Digest, afterId: int) returns (r: Result<(nat, int), AuditError>)
      requires Valid()
      ensures var k := UpTo(rows, afterId);
              var known := afterId <= 0 || (k > 0 && rows[k - 1].id == afterId);
              var start := if afterId <= 0 then [] else LastHash([], rows[..k]);
              && (r.Ok? <==> known && Linked(h, start, rows[k..]))
              && (r.Ok? ==> r.value == (|rows| - k, if k == |rows| then afterId else rows[|rows| - 1].id))
              && (r.Err? ==> r.error == if !known then CheckpointMissing(afterId) else FirstDefect(h, start, rows[k..]).value)
    {
      var k := UpTo(rows, afterId);
      var start: Text := [];
      if afterId > 0 {
        if k == 0 || rows[k - 1].id != afterId { return Err(CheckpointMissing(afterId)); }
        start := rows[k - 1].rowHash;
      }
      r := WalkRows(h, start, rows[k..], afterId);
    }
  }

  /** The row loop of `verify_audit_log_chain`: count and last id, or the first defect. */
  method WalkRows(h: Digest, start: Text, rows: seq<Row>, afterId: int) returns (r: Result<(nat, int), AuditError>)
    ensures r == match FirstDefect(h, start, rows)
                 case Some(e) => Err(e)
                 case None => Ok((|rows|, if rows == [] then afterId else rows[|rows| - 1].id))
  {
    var expected, count: nat, last := start, 0, afterId;
    for i := 0 to |rows|
      invariant count == i && last == if i == 0 then afterId else rows[i - 1].id
      invariant FirstDefect(h, start, rows) == FirstDefect(h, expected, rows[i..])
    {
      var row := rows[i];
      assert rows[i..][0] == row && rows[i..][1..] == rows[i + 1..];
      if row.prevHash != expected { return Err(PrevHashMismatch(row.id)); }
      var computed := AuditRowHash(h, row.Parts());
      if computed != row.rowHash { return Err(RowHashMismatch(row.id)); }
      expected, last, count := row.rowHash, row.id, count + 1;
    }
    assert rows[|rows|..] == [];
    r := Ok((count, last));
  }

  // ----- what a verified chain is worth -----

  /** Checking from a checkpoint continues the check that reached it. */
  lemma {:induction false} LinkedAppend(h: Digest, prev: Text, a: seq<Row>, b: seq<Row>)
    ensures Linked(h, prev, a + b) <==> Linked(h, prev, a) && Linked(h, LastHash(prev, a), b)
    decreases |a|
  {
    if a == [] {
      assert a + b == b;
    } else {
      assert (a + b)[0] == a[0] && (a + b)[1..] == a[1..] + b;
      LinkedAppend(h, a[0].rowHash, a[1..], b);
    }
  }

  lemma LinkedLast(h: Digest, rows: seq<Row>)
    requires rows != [] && Linked(h, [], rows)
    ensures var init, last := rows[..|rows| - 1], rows[|rows| - 1];
            Linked(h, [], init) && last.prevHash == LastHash([], init) && last.rowHash == HashOf(h, last)
  {
    var init, last := rows[..|rows| - 1], rows[|rows| - 1];
    assert rows == init + [last];
    LinkedAppend(h, [], init, [last]);
  }

  predicate SameContents(a: seq<Row>, b: seq<Row>) {
    |a| == |b| && forall i :: 0 <= i < |a| ==> a[i].Parts() == b[i].Parts() && a[i].rowHash == b[i].rowHash
  }

  lemma SameWithLast(a: seq<Row>, b: seq<Row>)
    requires a != [] && b != [] && SameContents(a[..|a| - 1], b[..|b| - 1])
    requires a[|a| - 1].Parts() == b[|b| - 1].Parts() && a[|a| - 1].rowHash == b[|b| - 1].rowHash
    ensures SameContents(a, b)
  {
    forall i | 0 <= i < |a|
      ensures a[i].Parts() == b[i].Parts() && a[i].rowHash == b[i].rowHash
    {
      if i < |a| - 1 { assert a[..|a| - 1][i] == a[i] && b[..|b| - 1][i] == b[i]; }
    }
  }

  /** Two logs that verify from the start and end in the same hash have the same contents row by
      row; otherwise they exhibit two inputs with one digest, or an input with an empty digest. */
  lemma {:induction false} SameHeadSameLog(h: Digest, a: seq<Row>, b: seq<Row>) returns (x: seq<Byte>, y: seq<Byte>)
    requires Linked(h, [], a) && Linked(h, [], b) && LastHash([], a) == LastHash([], b)
    ensures SameContents(a, b) || (x != y && h(x) == h(y)) || h(x) == []
    decreases |a|
  {
    x, y := [], [];
    if a == [] && b == [] {
    } else if a == [] {
      LinkedLast(h, b);
      x := Encode(b[|b| - 1].Parts());
    } else if b == [] {
      LinkedLast(h, a);
      x := Encode(a[|a| - 1].Parts());
    } else {
      LinkedLast(h, a);
      LinkedLast(h, b);
      var p, q := a[|a| - 1], b[|b| - 1];
      x, y := Encode(p.Parts()), Encode(q.Parts());
      if x == y {
        EncodeInjective(p.Parts(), q.Parts());
        assert p.prevHash == p.Parts()[4] && q.prevHash == q.Parts()[4];
        x, y := SameHeadSameLog(h, a[..|a| - 1], b[..|b| - 1]);
        if SameContents(a[..|a| - 1], b[..|b| - 1]) { SameWithLast(a, b); }
      }
    }
  }

  // ----- the chain in plain terms -----

  function Value(s: seq<Byte>): (n: nat) {
    if s == [] then 0 else 256 * Value(s[..|s| - 1]) + s[|s| - 1]
  }

  /** The length bytes spell the length, most significant first. */
  lemma {:induction false} BigEndianSpells(n: nat, k: nat)
    requires n < Pow256(k)
    ensures Value(BigEndian(n, k)) == n
  {
    if k > 0 {
      BigEndianSpells(n / 256, k - 1);
      assert BigEndian(n, k)[..k - 1] == BigEndian(n / 256, k - 1);
    }
  }

  /** The row names the hash before it and carries the hash of its own five fields. */
  predicate RowLinks(h: Digest, before: Text, row: Row) {
    row.prevHash == before && row.rowHash == h(Encode([row.ts, row.actor, row.action, row.detail, row.prevHash]))
  }

  function HashBefore(prev: Text, rows: seq<Row>, i: nat): (t: Text)
    requires i <= |rows|
  {
    if i == 0 then prev else rows[i - 1].rowHash
  }

  /** A log is linked exactly when each row links to the one before it. */
  lemma {:induction false} LinkedExactly(h: Digest, prev: Text, rows: seq<Row>)
    ensures Linked(h, prev, rows) <==> forall i :: 0 <= i < |rows| ==> RowLinks(h, HashBefore(prev, rows, i), rows[i])
    decreases |rows|
  {
    if rows != [] {
      var rest := rows[1..];
      LinkedExactly(h, rows[0].rowHash, rest);
      forall i | 0 <= i < |rest|
        ensures rest[i] == rows[i + 1] && HashBefore(rows[0].rowHash, rest, i) == HashBefore(prev, rows, i + 1)
      {}
      if Linked(h, prev, rows) {
        forall i | 0 <= i < |rows| ensures RowLinks(h, HashBefore(prev, rows, i), rows[i]) {
          if i > 0 { assert RowLinks(h, HashBefore(rows[0].rowHash, rest, i - 1), rest[i - 1]); }
        }
      }
      if forall i :: 0 <= i < |rows| ==> RowLinks(h, HashBefore(prev, rows, i), rows[i]) {
        forall i | 0 <= i < |rest| ensures RowLinks(h, HashBefore(rows[0].rowHash, rest, i), rest[i]) {
          assert RowLinks(h, HashBefore(prev, rows, i + 1), rows[i + 1]);
        }
        assert RowLinks(h, HashBefore(prev, rows, 0), rows[0]);
      }
    }
  }

  /** The defect reported is the first: all before it is linked, and it says which link is broken. */
  lemma {:induction false} FirstDefectMeans(h: Digest, prev: Text, rows: seq<Row>) returns (i: nat)
    requires FirstDefect(h, prev, rows).Some?
    ensures i < |rows| && Linked(h, prev, rows[..i])
    ensures match FirstDefect(h, prev, rows).value
            case PrevHashMismatch(id) => id == rows[i].id && rows[i].prevHash != LastHash(prev, rows[..i])
            case RowHashMismatch(id) => id == rows[i].id && rows[i].prevHash == LastHash(prev, rows[..i]) && rows[i].rowHash != HashOf(h, rows[i])
            case CheckpointMissing(_) => false
    decreases |rows|
  {
    if rows[0].prevHash == prev && rows[0].rowHash == HashOf(h, rows[0]) {
      var k := FirstDefectMeans(h, rows[0].rowHash, rows[1..]);
      i := k + 1;
      assert rows[..i][1..] == rows[1..][..k];
    } else {
      i := 0;
    }
  }
}
