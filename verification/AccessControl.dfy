// The port arrays behind the ACL maps: `PortRule` of net-guardia-abi/src/model/port_rule.rs
// (32 slots changed in place) and one `MapWrapper` of
// net-guardia/src/adapter/ebpf/access_control.rs, an eBPF hash map of at most 128 rules.

module AccessControl {
  import opened Basics

  const MAX_RULES := 128
  const MAX_RULES_PORT := 32

  type Port = x: int | 0 <= x < 65536

  type Ip = nat

  /** A rule as it is stored: the first `count` ports, or everything. */
  datatype Rule = Rule(matchAll: bool, ports: seq<Port>)

  predicate RuleOk(r: Rule) {
    |r.ports| <= MAX_RULES_PORT && NoDuplicates(r.ports)
  }

  function RemoveFirst(s: seq<Port>, p: Port): (r: seq<Port>) {
    if s == [] then [] else if s[0] == p then s[1..] else [s[0]] + RemoveFirst(s[1..], p)
  }

  lemma {:induction false} RemoveFirstAt(s: seq<Port>, p: Port, i: nat)
    requires i <= |s| && (forall j :: 0 <= j < i ==> s[j] != p) && (i < |s| ==> s[i] == p)
    ensures RemoveFirst(s, p) == if i < |s| then s[..i] + s[i + 1..] else s
  {
    if i > 0 {
      RemoveFirstAt(s[1..], p, i - 1);
      if i < |s| { CutAfterHead(s, i); } else { assert [s[0]] + s[1..] == s; }
    } else if i < |s| {
      assert s[..0] + s[1..] == s[1..];
    }
  }

  lemma CutAfterHead(s: seq<Port>, i: nat)
    requires 0 < i < |s|
    ensures [s[0]] + (s[1..][..i - 1] + s[1..][i..]) == s[..i] + s[i + 1..]
  {
    assert [s[0]] + s[1..][..i - 1] == s[..i];
    assert s[1..][i..] == s[i + 1..];
  }

  class PortRule {
    var matchAll: bool
    var count: nat
    const ports: array<Port>

    ghost predicate Valid()
      reads this, ports
    {
      ports.Length == MAX_RULES_PORT && count <= MAX_RULES_PORT && NoDuplicates(ports[..count])
    }

    ghost function View(): (r: Rule)
      requires Valid()
      reads this, ports
    {
      Rule(matchAll, ports[..count])
    }

    constructor Load(r: Rule)
      requires RuleOk(r)
      ensures Valid() && View() == r && fresh(ports)
    {
      matchAll, count := r.matchAll, |r.ports|;
      ports := new Port[MAX_RULES_PORT](i => if 0 <= i < |r.ports| then r.ports[i] else 0);
      new;
      assert ports[..count] == r.ports;
    }

    method Store() returns (r: Rule)
      requires Valid()
      ensures r == View() && RuleOk(r)
    {
      r := Rule(matchAll, ports[..count]);
    }

    method Contains(port: Port) returns (b: bool)
      requires Valid()
      ensures b <==> matchAll || port in ports[..count]
    {
      if matchAll { return true; }
      for i := 0 to count
        invariant port !in ports[..i]
      {
        if ports[i] == port { return true; }
      }
      return false;
    }

    method AddPort(port: Port) returns (ok: bool)
      requires Valid()
      modifies this, ports
      ensures Valid() && matchAll == old(matchAll)
      ensures ok <==> matchAll || port in old(ports[..count]) || old(count) < MAX_RULES_PORT
      ensures ports[..count] == if !ok || matchAll || port in old(ports[..count]) then old(ports[..count])
                                else old(ports[..count]) + [port]
    {
      if matchAll { return true; }
      for i := 0 to count
        invariant port !in ports[..i]
      {
        if ports[i] == port { return true; }
      }
      if count >= MAX_RULES_PORT { return false; }
      ports[count] := port;
      count := count + 1;
      assert ports[..count] == old(ports[..count]) + [port];
      return true;
    }

    method RemovePort(port: Port) returns (found: bool)
      requires Valid()
      modifies this, ports
      ensures Valid() && matchAll == old(matchAll)
      ensures found <==> port in old(ports[..count])
      ensures ports[..count] == RemoveFirst(old(ports[..count]), port)
    {
      ghost var before := ports[..count];
      for i := 0 to count
        invariant unchanged(this) && unchanged(ports)
        invariant port !in before[..i]
      {
        if ports[i] == port {
          ShiftDown(i);
          RemoveFirstAt(before, port, i);
          return true;
        }
      }
      RemoveFirstAt(before, port, |before|);
      return false;
    }

    /** Closes the gap at `i` and clears the freed slot. */
    method ShiftDown(i: nat)
      requires Valid() && i < count
      modifies this, ports
      ensures Valid() && matchAll == old(matchAll)
      ensures ports[..count] == old(ports[..i]) + old(ports[i + 1..count])
    {
      ghost var before := ports[..count];
      for j := i to count - 1
        invariant unchanged(this)
        invariant forall k :: 0 <= k < i ==> ports[k] == before[k]
        invariant forall k :: i <= k < j ==> ports[k] == before[k + 1]
        invariant forall k :: j <= k < count ==> ports[k] == before[k]
      {
        ports[j] := ports[j + 1];
      }
      count := count - 1;
      ports[count] := 0;
      assert ports[..count] == before[..i] + before[i + 1..];
      assert before[i + 1..] == old(ports[i + 1..count]);
    }
  }

  // ----- the map -----

  datatype AclError = RuleReachLimit | MapFull | NoEntry

  /** What a stored rule permits. */
  datatype Permission = All | Ports(ports: set<Port>)

  type Acl = map<Ip, Permission>

  function PermissionOf(r: Rule): (p: Permission) {
    if r.matchAll then All else Ports(Elems(r.ports))
  }

  function Elems(s: seq<Port>): (e: set<Port>) {
    set p | p in s
  }

  ghost predicate AclOk(a: Acl) {
    && |a| <= MAX_RULES
    && forall ip :: ip in a && a[ip].Ports? ==> a[ip].ports != {} && |a[ip].ports| <= MAX_RULES_PORT && 0 !in a[ip].ports
  }

  predicate Permits(a: Acl, ip: Ip, port: Port) {
    ip in a && (a[ip].All? || port in a[ip].ports)
  }

  function Put(a: Acl, ip: Ip, p: Permission): (r: Result<Acl, AclError>) {
    if ip in a || |a| < MAX_RULES then Ok(a[ip := p]) else Err(MapFull)
  }

  /** Adding a rule to the permissions; port 0 stands for every port. */
  function Added(a: Acl, ip: Ip, port: Port): (r: Result<Acl, AclError>) {
    if port == 0 then Put(a, ip, All)
    else
      var p := if ip in a then a[ip] else Ports({});
      if p.All? then Ok(a)
      else if port !in p.ports && |p.ports| >= MAX_RULES_PORT then Err(RuleReachLimit)
      else Put(a, ip, Ports(p.ports + {port}))
  }

  /** Removing one: a single port leaves a match-all rule alone, the last port drops the entry. */
  function Removed(a: Acl, ip: Ip, port: Port): (r: Result<Acl, AclError>) {
    if ip !in a then Err(NoEntry)
    else if port == 0 then Ok(a - {ip})
    else if a[ip].All? then Ok(a)
    else
      var left := a[ip].ports - {port};
      Ok(if left == {} then a - {ip} else a[ip := Ports(left)])
  }

  lemma {:induction false} ElemsSize(s: seq<Port>)
    requires NoDuplicates(s)
    ensures |Elems(s)| == |s|
  {
    if s != [] {
      var n := |s| - 1;
      ElemsSize(s[..n]);
      assert s == s[..n] + [s[n]];
      assert Elems(s) == Elems(s[..n]) + {s[n]};
    }
  }

  lemma {:induction false} ElemsRemove(s: seq<Port>, p: Port)
    requires NoDuplicates(s)
    ensures Elems(RemoveFirst(s, p)) == Elems(s) - {p}
  {
    if s != [] {
      ElemsRemove(s[1..], p);
      assert s == [s[0]] + s[1..];
      assert Elems(s) == {s[0]} + Elems(s[1..]);
      if s[0] != p {
        assert Elems(RemoveFirst(s, p)) == {s[0]} + Elems(RemoveFirst(s[1..], p));
      }
    }
  }

  /** A stored rule with one more port, unless its slots are taken. */
  method AddToRule(stored: Rule, port: Port) returns (r: Option<Rule>)
    requires RuleOk(stored) && !stored.matchAll && 0 !in stored.ports && port != 0
    ensures r.None? <==> port !in Elems(stored.ports) && |Elems(stored.ports)| >= MAX_RULES_PORT
    ensures r.Some? ==> && RuleOk(r.value) && !r.value.matchAll && 0 !in r.value.ports && r.value.ports != []
                        && Elems(r.value.ports) == Elems(stored.ports) + {port}
  {
    ElemsSize(stored.ports);
    var rule := new PortRule.Load(stored);
    var ok := rule.AddPort(port);
    if !ok { return None; }
    var changed := rule.Store();
    if port in stored.ports {
      assert Elems(stored.ports) + {port} == Elems(stored.ports);
    } else {
      assert Elems(stored.ports + [port]) == Elems(stored.ports) + {port};
    }
    r := Some(changed);
  }

  /** `remove_port_from_rule` on a rule that lists its ports. */
  method RemoveFromRule(stored: Rule, port: Port) returns (r: Rule)
    requires RuleOk(stored) && !stored.matchAll && 0 !in stored.ports
    ensures RuleOk(r) && !r.matchAll && 0 !in r.ports
    ensures Elems(r.ports) == Elems(stored.ports) - {port}
    ensures r.ports == [] <==> Elems(stored.ports) - {port} == {}
  {
    ElemsRemove(stored.ports, port);
    var rule := new PortRule.Load(stored);
    var _ := rule.RemovePort(port);
    r := rule.Store();
    assert 0 !in Elems(r.ports);
    if r.ports != [] { assert r.ports[0] in Elems(r.ports); }
  }

  class MapWrapper {
    var rules: map<Ip, Rule>

    ghost predicate Valid()
      reads this
    {
      && |rules| <= MAX_RULES
      && forall ip :: ip in rules ==> RuleOk(rules[ip]) && 0 !in rules[ip].ports && (rules[ip].matchAll || rules[ip].ports != [])
    }

    ghost function View(): (a: Acl)
      reads this
    {
      map ip | ip in rules :: PermissionOf(rules[ip])
    }

    constructor ()
      ensures Valid() && View() == map[]
    {
      rules := map[];
    }

    /** The kernel's lookup for a packet. */
    method Matches(ip: Ip, port: Port) returns (b: bool)
      requires Valid()
      ensures b <==> Permits(View(), ip, port)
    {
      if ip !in rules { return false; }
      var rule := new PortRule.Load(rules[ip]);
      b := rule.Contains(port);
    }

    /** `map.insert`: fails on a full map unless it overwrites. */
    method Insert(ip: Ip, rule: Rule) returns (r: Result<(), AclError>)
      requires Valid() && RuleOk(rule) && 0 !in rule.ports && (rule.matchAll || rule.ports != [])
      modifies this
      ensures Valid()
      ensures var put := Put(old(View()), ip, PermissionOf(rule));
              if put.Ok? then r == Ok(()) && View() == put.value else r == Err(put.error) && View() == old(View())
    {
      assert View().Keys == rules.Keys && |View()| == |rules| by { SameSize(View(), rules); }
      if ip !in rules && |rules| >= MAX_RULES { return Err(MapFull); }
      ghost var before := rules;
      rules := rules[ip := rule];
      SameSizePlus(before, ip, rule);
      r := Ok(());
    }

    method Add(ip: Ip, port: Port) returns (r: Result<(), AclError>)
      requires Valid()
      modifies this
      ensures Valid()
      ensures var add := Added(old(View()), ip, port);
              if add.Ok? then r == Ok(()) && View() == add.value else r == Err(add.error) && View() == old(View())
    {
      if port == 0 {
        r := Insert(ip, Rule(true, []));
        return;
      }
      var stored := if ip in rules then rules[ip] else Rule(false, []);
      if stored.matchAll { return Ok(()); }
      var changed := AddToRule(stored, port);
      if changed.None? { return Err(RuleReachLimit); }
      r := Insert(ip, changed.value);
    }

    method Remove(ip: Ip, port: Port) returns (r: Result<(), AclError>)
      requires Valid()
      modifies this
      ensures Valid()
      ensures var rem := Removed(old(View()), ip, port);
              if rem.Ok? then r == Ok(()) && View() == rem.value else r == Err(rem.error) && View() == old(View())
    {
      if ip !in rules { return Err(NoEntry); }
      if port == 0 {
        Delete(ip);
        return Ok(());
      }
      if rules[ip].matchAll { return Ok(()); }
      var changed := RemoveFromRule(rules[ip], port);
      if changed.ports == [] {
        Delete(ip);
      } else {
        var _ := Insert(ip, changed);
      }
      r := Ok(());
    }

    /** `restore_acl_rules` on one map: rows that fail are logged and skipped. */
    method Restore(rows: seq<Row>)
      requires Valid()
      modifies this
      ensures Valid() && View() == Restored(old(View()), rows)
    {
      for i := 0 to |rows|
        invariant Valid()
        invariant View() == Restored(old(View()), rows[..i])
      {
        var _ := Add(rows[i].ip, rows[i].port);
        assert rows[..i + 1][..i] == rows[..i];
      }
      assert rows[..|rows|] == rows;
    }

    method Delete(ip: Ip)
      requires Valid() && ip in rules
      modifies this
      ensures Valid() && View() == old(View()) - {ip}
    {
      SameSizeMinus(rules, ip);
      rules := rules - {ip};
    }
  }

  lemma SameSize<A, B>(a: map<Ip, A>, b: map<Ip, B>)
    requires a.Keys == b.Keys
    ensures |a| == |b|
  {
    assert |a.Keys| == |b.Keys|;
  }

  lemma SameSizePlus(rules: map<Ip, Rule>, ip: Ip, rule: Rule)
    ensures |rules[ip := rule]| == |rules| + if ip in rules then 0 else 1
  {
    var r := rules[ip := rule];
    assert r.Keys == rules.Keys + {ip};
    if ip in rules { assert r.Keys == rules.Keys; }
    assert |r| == |r.Keys| && |rules| == |rules.Keys|;
  }

  lemma SameSizeMinus(rules: map<Ip, Rule>, ip: Ip)
    ensures |rules - {ip}| <= |rules|
  {
    assert (rules - {ip}).Keys == rules.Keys - {ip};
    assert rules.Keys - {ip} <= rules.Keys;
    assert |rules.Keys - {ip}| <= |rules.Keys|;
  }

  // ----- what adds and removes permit -----

  /** Adds keep the map within its limits, without empty entries. */
  lemma AddKeepsLimits(a: Acl, ip: Ip, port: Port)
    requires AclOk(a) && Added(a, ip, port).Ok?
    ensures AclOk(Added(a, ip, port).value)
  {
    var r := Added(a, ip, port).value;
    if r != a { PutSize(a, ip, r[ip]); }
    if port != 0 && !(ip in a && a[ip].All?) {
      var held := if ip in a then a[ip].ports else {};
      assert r == a[ip := Ports(held + {port})];
      if port in held { assert held + {port} == held; }
    }
  }

  /** A successful add permits exactly what was permitted and the added port or ports. */
  lemma AddEffect(a: Acl, ip: Ip, port: Port, q: Ip, x: Port)
    requires Added(a, ip, port).Ok?
    ensures Permits(Added(a, ip, port).value, q, x) <==> Permits(a, q, x) || (q == ip && (port == 0 || x == port))
  {
    if q == ip && port != 0 && !(ip in a && a[ip].All?) {
      var held := if ip in a then a[ip].ports else {};
      assert Added(a, ip, port).value[ip] == Ports(held + {port});
    }
  }

  /** A successful remove takes away exactly the named port, or the entry for port 0; a match-all
      rule loses nothing to a single port. */
  lemma RemoveEffect(a: Acl, ip: Ip, port: Port, q: Ip, x: Port)
    requires AclOk(a) && Removed(a, ip, port).Ok?
    ensures AclOk(Removed(a, ip, port).value)
    ensures Permits(Removed(a, ip, port).value, q, x) <==>
            Permits(a, q, x) && !(q == ip && (port == 0 || (x == port && a[ip].Ports?)))
  {
    var r := Removed(a, ip, port).value;
    assert r.Keys <= a.Keys;
    SizeLe(r.Keys, a.Keys);
    if a[ip].Ports? { SizeLe(a[ip].ports - {port}, a[ip].ports); }
  }

  lemma PutSize(a: Acl, ip: Ip, p: Permission)
    ensures |a[ip := p]| == |a| + if ip in a then 0 else 1
  {
    var r := a[ip := p];
    assert r.Keys == a.Keys + {ip};
    if ip in a { assert r.Keys == a.Keys; }
    assert |r| == |r.Keys| && |a| == |a.Keys|;
  }

  lemma SizeLe<T>(a: set<T>, b: set<T>)
    requires a <= b
    ensures |a| <= |b|
  {
    assert b == a + (b - a);
  }

  // ----- restoring persisted rows -----

  datatype Row = Row(ip: Ip, port: Port)

  function AddOrSkip(a: Acl, row: Row): (r: Acl) {
    var add := Added(a, row.ip, row.port);
    if add.Ok? then add.value else a
  }

  function Restored(a: Acl, rows: seq<Row>): (r: Acl) {
    if rows == [] then a else AddOrSkip(Restored(a, rows[..|rows| - 1]), rows[|rows| - 1])
  }

  function IpsOf(rows: seq<Row>): (ips: set<Ip>) {
    set r | r in rows :: r.ip
  }

  function PortsOf(rows: seq<Row>, ip: Ip): (ports: set<Port>) {
    set r | r in rows && r.ip == ip :: r.port
  }

  /** The rows fit: few enough addresses, and few enough ports where no row matches all. */
  ghost predicate FitsMap(rows: seq<Row>) {
    |IpsOf(rows)| <= MAX_RULES && forall ip :: 0 !in PortsOf(rows, ip) ==> |PortsOf(rows, ip)| <= MAX_RULES_PORT
  }

  /** What a set of rows permits, whatever their order. */
  function Meaning(rows: seq<Row>): (a: Acl) {
    map ip | ip in IpsOf(rows) :: if 0 in PortsOf(rows, ip) then All else Ports(PortsOf(rows, ip))
  }

  /** After a prefix of `all`: exact, except that an address still waiting for its match-all row
      may hold only part of its ports. */
  ghost predicate Partly(a: Acl, done: seq<Row>, all: seq<Row>) {
    && a.Keys == IpsOf(done)
    && forall ip :: ip in a ==> PartlyHeld(a[ip], PortsOf(done, ip), PortsOf(all, ip))
  }

  predicate PartlyHeld(p: Permission, done: set<Port>, all: set<Port>) {
    if 0 in done then p.All?
    else p.Ports? && p.ports <= done && (0 !in all ==> p.ports == done)
  }

  lemma RowSets(done: seq<Row>, row: Row, ip: Ip)
    ensures IpsOf(done + [row]) == IpsOf(done) + {row.ip}
    ensures PortsOf(done + [row], ip) == if ip == row.ip then PortsOf(done, ip) + {row.port} else PortsOf(done, ip)
  {
    var more := done + [row];
    assert forall r :: r in more <==> r in done || r == row;
    assert row in more;
  }

  /** A row fails only on a rule whose 32 slots are taken, while there is room for its address. */
  lemma AddOrSkipEntry(a: Acl, row: Row)
    requires |a.Keys + {row.ip}| <= MAX_RULES
    ensures var r := AddOrSkip(a, row);
            var held := if row.ip in a && a[row.ip].Ports? then a[row.ip].ports else {};
            && r.Keys == a.Keys + {row.ip}
            && (forall q :: q in a && q != row.ip ==> r[q] == a[q])
            && (row.port == 0 || (row.ip in a && a[row.ip].All?) ==> r[row.ip].All?)
            && (row.port != 0 && !(row.ip in a && a[row.ip].All?) ==>
                  && r[row.ip].Ports? && r[row.ip].ports <= held + {row.port}
                  && (|held + {row.port}| <= MAX_RULES_PORT ==> r[row.ip].ports == held + {row.port}))
  {
    var held := if row.ip in a && a[row.ip].Ports? then a[row.ip].ports else {};
    assert |a| == |a.Keys|;
    if row.ip !in a { assert |a.Keys + {row.ip}| == |a.Keys| + 1; }
    if row.port !in held { assert |held + {row.port}| == |held| + 1; }
    if row.ip in a { assert a.Keys + {row.ip} == a.Keys; }
  }

  lemma PartlyStep(a: Acl, done: seq<Row>, row: Row, all: seq<Row>)
    requires Partly(a, done, all) && FitsMap(all)
    requires IpsOf(done + [row]) <= IpsOf(all) && PortsOf(done + [row], row.ip) <= PortsOf(all, row.ip)
    ensures Partly(AddOrSkip(a, row), done + [row], all)
  {
    var ip, r := row.ip, AddOrSkip(a, row);
    RowSets(done, row, ip);
    SizeLe(IpsOf(done) + {ip}, IpsOf(all));
    AddOrSkipEntry(a, row);
    forall q | q in r
      ensures PartlyHeld(r[q], PortsOf(done + [row], q), PortsOf(all, q))
    {
      RowSets(done, row, q);
      if q == ip {
        SizeLe(PortsOf(done, ip) + {row.port}, PortsOf(all, ip));
        if ip !in a { assert PortsOf(done, ip) == {}; }
        HeldAfter(if ip in a then a[ip] else Ports({}), r[ip], PortsOf(done, ip), row.port, PortsOf(all, ip));
      }
    }
  }

  lemma HeldAfter(p: Permission, r: Permission, done: set<Port>, port: Port, all: set<Port>)
    requires PartlyHeld(p, done, all) && done + {port} <= all
    requires 0 !in all ==> |done + {port}| <= MAX_RULES_PORT
    requires port == 0 || p.All? ==> r.All?
    requires port != 0 && p.Ports? ==> && r.Ports? && r.ports <= p.ports + {port}
                                       && (|p.ports + {port}| <= MAX_RULES_PORT ==> r.ports == p.ports + {port})
    ensures PartlyHeld(r, done + {port}, all)
  {}

  lemma {:induction false} RestoredPartly(rows: seq<Row>, all: seq<Row>, n: nat)
    requires n <= |all| && rows == all[..n] && FitsMap(all)
    ensures Partly(Restored(map[], rows), rows, all)
    decreases n
  {
    if n > 0 {
      var done, row := rows[..n - 1], rows[n - 1];
      assert done == all[..n - 1] && rows == done + [row];
      RestoredPartly(done, all, n - 1);
      assert forall r :: r in rows ==> r in all;
      PartlyStep(Restored(map[], done), done, row, all);
    }
  }

  /** Restoring rows that fit gives what the rows mean. */
  lemma RestoreMeaning(rows: seq<Row>)
    requires FitsMap(rows)
    ensures Restored(map[], rows) == Meaning(rows)
  {
    assert rows[..|rows|] == rows;
    RestoredPartly(rows, rows, |rows|);
  }

  /** The order of the persisted rows does not matter. */
  lemma RestoreOrderFree(rows: seq<Row>, reordered: seq<Row>)
    requires FitsMap(rows) && forall r :: r in rows <==> r in reordered
    ensures Restored(map[], rows) == Restored(map[], reordered)
  {
    assert IpsOf(rows) == IpsOf(reordered);
    forall ip ensures PortsOf(rows, ip) == PortsOf(reordered, ip) {}
    RestoreMeaning(rows);
    RestoreMeaning(reordered);
  }

  // ----- when an operation succeeds -----

  /** An addition succeeds exactly when the address and the port are known or there is room: 128
      addresses, 32 ports each. */
  lemma AddSucceedsExactly(a: Acl, ip: Ip, port: Port)
    ensures Added(a, ip, port).Ok? <==>
            if port != 0 && ip in a then a[ip].All? || port in a[ip].ports || |a[ip].ports| < 32
            else ip in a || |a| < 128
    ensures Added(a, ip, port) == Err(MapFull) <==> ip !in a && |a| >= 128
    ensures Added(a, ip, port) == Err(RuleReachLimit) <==> port != 0 && ip in a && a[ip].Ports? && port !in a[ip].ports && |a[ip].ports| >= 32
  {}

  /** A removal succeeds exactly when the address has an entry. */
  lemma RemoveSucceedsExactly(a: Acl, ip: Ip, port: Port)
    ensures if ip in a then Removed(a, ip, port).Ok? else Removed(a, ip, port) == Err(NoEntry)
  {}
}
