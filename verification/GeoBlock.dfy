// Country blocking: the prefix tries of net-guardia/src/adapter/ebpf/geo_block.rs and the service
// calls of net-guardia/src/core/data_plane/acl_service.rs that keep them in step with the
// database. A trie is the set of its prefixes; which of its operations fail is a parameter.

module GeoBlock {
  import opened Basics
  import opened AsciiText

  datatype Prefix = Prefix(address: nat, length: nat)

  type Prefixes = map<Text, seq<Prefix>>

  datatype Index = Index(v4: Prefixes, v6: Prefixes)

  datatype Error = NotLoaded | OpenFileFailed | InvalidCountryCode(code: Text) | DatabaseFailed

  /** The prefixes on which inserting or removing fails. */
  datatype Faults = Faults(insert: set<Prefix>, remove: set<Prefix>)

  const NoFaults := Faults({}, {})

  // ----- one trie -----

  /** A rebuild of a trie: all wanted prefixes are inserted, then the stale ones removed. */
  ghost function Rebuilt(before: set<Prefix>, wanted: set<Prefix>, f: Faults): (after: set<Prefix>)
    ensures after * wanted == wanted * (before + (wanted - f.insert))
    ensures after - wanted == (before - wanted) * f.remove
    ensures f == NoFaults ==> after == wanted
  {
    var mid := before + (wanted - f.insert);
    mid - (mid - wanted - f.remove)
  }

  /** Each state from `from` on holds all of the old prefixes or all of the new, and only those. */
  ghost predicate Smooth(trace: seq<set<Prefix>>, from: nat, before: set<Prefix>, after: set<Prefix>) {
    forall i :: from <= i < |trace| ==> (before <= trace[i] || after <= trace[i]) && trace[i] <= before + after
  }

  ghost predicate Between(trace: seq<set<Prefix>>, from: nat, low: set<Prefix>, high: set<Prefix>) {
    forall i :: from <= i < |trace| ==> low <= trace[i] <= high
  }

  /** An address inside a blocked prefix before and after stays inside one throughout, and one that
      is in none before or after never is. */
  lemma AddressStaysBlocked(covers: (Prefix, nat) -> bool, a: nat,
                            trace: seq<set<Prefix>>, from: nat, before: set<Prefix>, after: set<Prefix>)
    requires Smooth(trace, from, before, after)
    ensures forall i :: from <= i < |trace| ==>
              && (Blocks(covers, before, a) && Blocks(covers, after, a) ==> Blocks(covers, trace[i], a))
              && (!Blocks(covers, before, a) && !Blocks(covers, after, a) ==> !Blocks(covers, trace[i], a))
  {
    forall i | from <= i < |trace|
      ensures Blocks(covers, before, a) && Blocks(covers, after, a) ==> Blocks(covers, trace[i], a)
      ensures Blocks(covers, trace[i], a) ==> Blocks(covers, before, a) || Blocks(covers, after, a)
    {
      if Blocks(covers, before, a) && Blocks(covers, after, a) {
        var p :| p in before && covers(p, a);
        var q :| q in after && covers(q, a);
        assert p in trace[i] || q in trace[i];
      }
      if Blocks(covers, trace[i], a) {
        var p :| p in trace[i] && covers(p, a);
        assert p in before + after;
      }
    }
  }

  ghost predicate Blocks(covers: (Prefix, nat) -> bool, s: set<Prefix>, a: nat) {
    exists p :: p in s && covers(p, a)
  }

  class Trie {
    var keys: set<Prefix>
    /** The states gone through. */
    ghost var trace: seq<set<Prefix>>

    constructor ()
      ensures keys == {} && trace == []
    {
      keys, trace := {}, [];
    }

    method Insert(p: Prefix, fails: bool) returns (ok: bool)
      modifies this
      ensures ok == !fails && keys == (if ok then old(keys) + {p} else old(keys)) && trace == old(trace) + [keys]
    {
      ok := !fails;
      if ok { keys := keys + {p}; }
      trace := trace + [keys];
    }

    method Remove(p: Prefix, fails: bool)
      modifies this
      ensures keys == (if fails then old(keys) else old(keys) - {p}) && trace == old(trace) + [keys]
    {
      if !fails { keys := keys - {p}; }
      trace := trace + [keys];
    }

    method InsertAll(wanted: set<Prefix>, failing: set<Prefix>) returns (count: nat)
      modifies this
      ensures keys == old(keys) + (wanted - failing) && count == |wanted - failing|
      ensures old(trace) <= trace && Between(trace, |old(trace)|, old(keys), keys)
    {
      count := 0;
      var left := wanted;
      ghost var all := old(keys) + (wanted - failing);
      while left != {}
        invariant left <= wanted && keys == old(keys) + (wanted - left - failing) && count == |wanted - left - failing|
        invariant old(trace) <= trace && Between(trace, |old(trace)|, old(keys), all)
        decreases |left|
      {
        var p :| p in left;
        InsertStep(old(keys), wanted, left, p, failing);
        BetweenGrows(trace, |old(trace)|, old(keys), all, old(keys) + (wanted - (left - {p}) - failing));
        var ok := Insert(p, p in failing);
        if ok { count := count + 1; }
        left := left - {p};
      }
    }

    /** `remove_stale_v4` and `remove_stale_v6`. */
    method RemoveStale(desired: set<Prefix>, failing: set<Prefix>)
      modifies this
      ensures keys == old(keys) - (old(keys) - desired - failing)
      ensures old(trace) <= trace && Between(trace, |old(trace)|, keys, old(keys))
    {
      var stale := keys - desired;
      ghost var gone, rest := stale - failing, old(keys) - (stale - failing);
      while stale != {}
        invariant stale <= old(keys) - desired && keys == rest + (stale - failing)
        invariant old(trace) <= trace && Between(trace, |old(trace)|, rest, old(keys))
        decreases |stale|
      {
        var p :| p in stale;
        RemoveStep(rest, gone, stale, p, failing);
        BetweenGrows(trace, |old(trace)|, rest, old(keys), rest + (stale - {p} - failing));
        Remove(p, p in failing);
        stale := stale - {p};
      }
    }
  }

  lemma InsertStep(keys: set<Prefix>, wanted: set<Prefix>, left: set<Prefix>, p: Prefix, failing: set<Prefix>)
    requires p in left && left <= wanted
    ensures var was, now := wanted - left - failing, wanted - (left - {p}) - failing;
            && keys + now == (if p in failing then keys + was else keys + was + {p})
            && |now| == |was| + (if p in failing then 0 else 1)
            && keys <= keys + now <= keys + (wanted - failing)
  {
    var was, now := wanted - left - failing, wanted - (left - {p}) - failing;
    assert now == if p in failing then was else was + {p};
  }

  lemma RemoveStep(rest: set<Prefix>, gone: set<Prefix>, stale: set<Prefix>, p: Prefix, failing: set<Prefix>)
    requires p in stale && stale - failing <= gone && rest !! gone
    ensures var was, now := rest + (stale - failing), rest + (stale - {p} - failing);
            now == (if p in failing then was else was - {p}) && rest <= now <= rest + gone
  {}

  lemma BetweenGrows(trace: seq<set<Prefix>>, from: nat, low: set<Prefix>, high: set<Prefix>, s: set<Prefix>)
    requires Between(trace, from, low, high) && low <= s <= high
    ensures Between(trace + [s], from, low, high)
  {}

  // ----- country codes -----

  function Normalized(code: Text): (t: Text) {
    Upper(Trim(code))
  }

  predicate IsCountry(t: Text) {
    |t| == 2 && IsLetter(t[0]) && IsLetter(t[1])
  }

  /** A code as it is stored. */
  predicate IsStored(t: Text) {
    |t| == 2 && IsUpper(t[0]) && IsUpper(t[1])
  }

  lemma CountryIsStored(code: Text)
    requires IsCountry(Normalized(code))
    ensures IsStored(Normalized(code))
  {}

  lemma StoredIsNormal(t: Text)
    requires IsStored(t)
    ensures Normalized(t) == t && IsCountry(t)
  {
    assert TrimStart(t) == t && TrimEnd(t) == t;
    assert Upper(t) == t;
  }

  /** The countries that a list of codes names, skipping what is no country code. */
  function Countries(codes: seq<Text>): (cs: set<Text>) {
    if codes == [] then {}
    else
      var c := Normalized(codes[|codes| - 1]);
      Countries(codes[..|codes| - 1]) + if IsCountry(c) then {c} else {}
  }

  function Names(codes: seq<Text>): (cs: set<Text>) {
    if codes == [] then {} else Names(codes[..|codes| - 1]) + {Normalized(codes[|codes| - 1])}
  }

  ghost predicate AllStored(cs: set<Text>) {
    forall c :: c in cs ==> IsStored(c)
  }

  lemma {:induction false} CountriesStored(codes: seq<Text>)
    ensures AllStored(Countries(codes))
  {
    if codes != [] {
      CountriesStored(codes[..|codes| - 1]);
      if IsCountry(Normalized(codes[|codes| - 1])) { CountryIsStored(codes[|codes| - 1]); }
    }
  }

  /** The country `c`, two capitals, is meant by two letters of any case with spaces around them. */
  predicate Means(code: Text, c: Text) {
    exists i, j :: 0 <= i <= j <= |code| && Spaces(code[..i]) && Spaces(code[j..]) && SameButCase(code[i..j], c)
  }

  lemma MeaningIsNormalized(code: Text, c: Text)
    requires IsStored(c) && Means(code, c)
    ensures Normalized(code) == c
  {
    var i, j :| 0 <= i <= j <= |code| && Spaces(code[..i]) && Spaces(code[j..]) && SameButCase(code[i..j], c);
    assert code == code[..i] + code[i..j] + code[j..];
    CapitalsOf(code[i..j], c);
    TrimDrops(code[..i], code[i..j], code[j..]);
  }

  lemma CapitalsOf(core: Text, c: Text)
    requires IsStored(c) && SameButCase(core, c)
    ensures Solid(core) && Upper(core) == c
  {
    assert core[0] == c[0] || core[0] == c[0] + 32;
    assert core[1] == c[1] || core[1] == c[1] + 32;
  }

  /** Blocking or unblocking a list of codes concerns the country of each code in it. */
  lemma {:induction false} CodesMean(codes: seq<Text>, k: nat, c: Text)
    requires k < |codes| && IsStored(c) && Means(codes[k], c)
    ensures c in Countries(codes) && c in Names(codes)
  {
    var n := |codes| - 1;
    if k == n {
      MeaningIsNormalized(codes[k], c);
    } else {
      CodesMean(codes[..n], k, c);
    }
  }

  /** And no other. */
  lemma {:induction false} NamesOnly(codes: seq<Text>, c: Text)
    ensures c in Countries(codes) ==> c in Names(codes)
    ensures c in Names(codes) ==> exists k :: 0 <= k < |codes| && Normalized(codes[k]) == c
  {
    if codes != [] {
      var init := codes[..|codes| - 1];
      NamesOnly(init, c);
      if c in Names(init) {
        var k :| 0 <= k < |init| && Normalized(init[k]) == c;
        assert codes[k] == init[k];
      }
    }
  }

  function Elements<T>(s: seq<T>): (r: set<T>) {
    set x | x in s
  }

  /** A list of stored codes names its own elements. */
  lemma {:induction false} StoredCodes(codes: seq<Text>)
    requires AllStored(Elements(codes))
    ensures Countries(codes) == Elements(codes) == Names(codes)
  {
    if codes != [] {
      var init, last := codes[..|codes| - 1], codes[|codes| - 1];
      assert codes == init + [last];
      assert Elements(codes) == Elements(init) + {last};
      assert last in Elements(codes);
      StoredIsNormal(last);
      StoredCodes(init);
    }
  }

  ghost function Union(index: Prefixes, countries: set<Text>): (ps: set<Prefix>) {
    set c, p | c in countries && c in index && p in index[c] :: p
  }

  lemma UnionAdds(index: Prefixes, countries: set<Text>, c: Text)
    ensures Union(index, countries + {c}) == Union(index, countries) + if c in index then Elements(index[c]) else {}
  {}

  method Collect(index: Prefixes, c: Text, entries: set<Prefix>) returns (r: set<Prefix>)
    ensures r == entries + if c in index then Elements(index[c]) else {}
  {
    r := entries;
    if c in index {
      var prefixes := index[c];
      for i := 0 to |prefixes|
        invariant r == entries + Elements(prefixes[..i])
      {
        assert prefixes[..i + 1] == prefixes[..i] + [prefixes[i]];
        r := r + {prefixes[i]};
      }
      assert prefixes[..|prefixes|] == prefixes;
    }
  }

  method CollectAll(index: Index, countries: set<Text>) returns (v4: set<Prefix>, v6: set<Prefix>)
    ensures v4 == Union(index.v4, countries) && v6 == Union(index.v6, countries)
  {
    v4, v6 := {}, {};
    var left := countries;
    ghost var done: set<Text> := {};
    while left != {}
      invariant left !! done && left + done == countries
      invariant v4 == Union(index.v4, done) && v6 == Union(index.v6, done)
      decreases |left|
    {
      var c :| c in left;
      v4 := Collect(index.v4, c, v4);
      v6 := Collect(index.v6, c, v6);
      UnionAdds(index.v4, done, c);
      UnionAdds(index.v6, done, c);
      left := left - {c};
      done := done + {c};
    }
    assert done == countries;
  }

  method With(blocked: set<Text>, codes: seq<Text>) returns (next: set<Text>)
    requires AllStored(blocked)
    ensures next == blocked + Countries(codes) && AllStored(next)
  {
    next := blocked;
    for i := 0 to |codes|
      invariant next == blocked + Countries(codes[..i])
    {
      assert codes[..i + 1][..i] == codes[..i];
      var upper := Normalized(codes[i]);
      if IsCountry(upper) { next := next + {upper}; }
    }
    assert codes[..|codes|] == codes;
    CountriesStored(codes);
  }

  method Without(blocked: set<Text>, codes: seq<Text>) returns (next: set<Text>)
    ensures next == blocked - Names(codes)
  {
    next := blocked;
    for i := 0 to |codes|
      invariant next == blocked - Names(codes[..i])
    {
      assert codes[..i + 1][..i] == codes[..i];
      next := next - {Normalized(codes[i])};
    }
    assert codes[..|codes|] == codes;
  }

  // ----- both tries -----

  class GeoBlock {
    const loaded: bool
    const v4: Trie
    const v6: Trie
    var blocked: set<Text>
    var index: Option<Index>

    ghost predicate Valid()
      reads this
    {
      v4 != v6 && AllStored(blocked) && (blocked != {} ==> index.Some?)
    }

    ghost function Wanted4(countries: set<Text>): (ps: set<Prefix>)
      reads this
    {
      if index.Some? then Union(index.value.v4, countries) else {}
    }

    ghost function Wanted6(countries: set<Text>): (ps: set<Prefix>)
      reads this
    {
      if index.Some? then Union(index.value.v6, countries) else {}
    }

    /** The tries hold exactly the prefixes of the blocked countries. */
    ghost predicate Exact()
      reads this, v4, v6
    {
      v4.keys == Wanted4(blocked) && v6.keys == Wanted6(blocked)
    }

    constructor Loaded()
      ensures Valid() && Exact() && loaded && blocked == {} && fresh(v4) && fresh(v6)
    {
      loaded := true;
      blocked, index := {}, None;
      v4 := new Trie();
      v6 := new Trie();
    }

    constructor Unavailable()
      ensures Valid() && Exact() && !loaded && blocked == {} && fresh(v4) && fresh(v6)
    {
      loaded := false;
      blocked, index := {}, None;
      v4 := new Trie();
      v6 := new Trie();
    }

    /** The index, read from the database file on first use; `file` is what reading it now yields. */
    method LoadIndex(file: Option<Index>) returns (r: Option<Index>)
      modifies this`index
      ensures r == index == if old(index).Some? then old(index) else file
    {
      if index.None? { index := file; }
      r := index;
    }

    ghost predicate CannotRebuild(countries: set<Text>, file: Option<Index>)
      reads this
    {
      !loaded || (countries != {} && index.None? && file.None?)
    }

    method RebuildTriesFor(countries: set<Text>, file: Option<Index>, f4: Faults, f6: Faults) returns (r: Result<nat, Error>)
      requires v4 != v6
      modifies this`index, v4, v6
      ensures r.Err? <==> old(CannotRebuild(countries, file))
      ensures old(index).Some? ==> index == old(index)
      ensures r.Err? ==> unchanged(v4) && unchanged(v6)
      ensures r.Ok? ==>
        && (countries != {} ==> index.Some?)
        && v4.keys == Rebuilt(old(v4.keys), Wanted4(countries), f4)
        && v6.keys == Rebuilt(old(v6.keys), Wanted6(countries), f6)
        && r.value == |Wanted4(countries) - f4.insert| + |Wanted6(countries) - f6.insert|
        && Smooth(v4.trace, |old(v4.trace)|, old(v4.keys), v4.keys)
        && Smooth(v6.trace, |old(v6.trace)|, old(v6.keys), v6.keys)
    {
      if !loaded { return Err(NotLoaded); }
      var entries4: set<Prefix>, entries6: set<Prefix> := {}, {};
      if countries != {} {
        var loadedIndex := LoadIndex(file);
        if loadedIndex.None? { return Err(OpenFileFailed); }
        entries4, entries6 := CollectAll(loadedIndex.value, countries);
      }
      assert entries4 == Wanted4(countries) && entries6 == Wanted6(countries);
      var count4 := v4.InsertAll(entries4, f4.insert);
      var count6 := v6.InsertAll(entries6, f6.insert);
      v4.RemoveStale(entries4, f4.remove);
      v6.RemoveStale(entries6, f6.remove);
      r := Ok(count4 + count6);
    }

    method BlockCountries(codes: seq<Text>, file: Option<Index>, f4: Faults, f6: Faults) returns (r: Result<nat, Error>)
      requires Valid()
      modifies this, v4, v6
      ensures Valid() && (old(index).Some? ==> index == old(index))
      ensures r.Err? <==> old(CannotRebuild(blocked + Countries(codes), file))
      ensures r.Ok? ==> blocked == old(blocked) + Countries(codes) && Moved(old(v4.keys), old(v6.keys), old(v4.trace), old(v6.trace), f4, f6)
      ensures r.Err? ==> blocked == old(blocked) && unchanged(v4) && unchanged(v6)
    {
      var next := With(blocked, codes);
      r := RebuildTriesFor(next, file, f4, f6);
      if r.Ok? { blocked := next; }
    }

    method UnblockCountries(codes: seq<Text>, file: Option<Index>, f4: Faults, f6: Faults) returns (r: Result<nat, Error>)
      requires Valid()
      modifies this, v4, v6
      ensures Valid() && (old(index).Some? ==> index == old(index))
      ensures r.Err? <==> old(CannotRebuild(blocked - Names(codes), file))
      ensures r.Ok? ==> blocked == old(blocked) - Names(codes) && Moved(old(v4.keys), old(v6.keys), old(v4.trace), old(v6.trace), f4, f6)
      ensures r.Err? ==> blocked == old(blocked) && unchanged(v4) && unchanged(v6)
    {
      var next := Without(blocked, codes);
      r := RebuildTriesFor(next, file, f4, f6);
      if r.Ok? { blocked := next; }
    }

    /** Both tries were rebuilt for the countries now blocked, smoothly. */
    ghost predicate Moved(keys4: set<Prefix>, keys6: set<Prefix>, trace4: seq<set<Prefix>>, trace6: seq<set<Prefix>>, f4: Faults, f6: Faults)
      reads this, v4, v6
    {
      && v4.keys == Rebuilt(keys4, Wanted4(blocked), f4) && Smooth(v4.trace, |trace4|, keys4, v4.keys)
      && v6.keys == Rebuilt(keys6, Wanted6(blocked), f6) && Smooth(v6.trace, |trace6|, keys6, v6.keys)
    }
  }

  // ----- the service -----

  function Deduplicated(s: seq<Text>): (r: seq<Text>) {
    if s == [] then []
    else
      var init, last := s[..|s| - 1], s[|s| - 1];
      if last in init then Deduplicated(init) else Deduplicated(init) + [last]
  }

  lemma {:induction false} DeduplicatedMeans(s: seq<Text>)
    ensures NoDuplicates(Deduplicated(s)) && Elements(Deduplicated(s)) == Elements(s)
  {
    if s != [] {
      var init, last := s[..|s| - 1], s[|s| - 1];
      assert s == init + [last];
      DeduplicatedMeans(init);
      var d := Deduplicated(init);
      assert last in d <==> last in Elements(d);
      assert last in init <==> last in Elements(init);
      assert Elements(d + [last]) == Elements(d) + {last};
      assert Elements(s) == Elements(init) + {last};
    }
  }

  /** What is mentioned first comes first. */
  lemma {:induction false} DeduplicatedGrows(a: seq<Text>, b: seq<Text>)
    ensures Deduplicated(a) <= Deduplicated(a + b)
    decreases |b|
  {
    if b == [] {
      assert a + b == a;
    } else {
      assert (a + b)[..|a + b| - 1] == a + b[..|b| - 1];
      DeduplicatedGrows(a, b[..|b| - 1]);
    }
  }

  function NormalizedAll(codes: seq<Text>): (r: seq<Text>)
    ensures |r| == |codes|
  {
    seq(|codes|, i requires 0 <= i < |codes| => Normalized(codes[i]))
  }

  predicate NamesCountry(code: Text) {
    IsCountry(Normalized(code))
  }

  predicate AllCountries(codes: seq<Text>) {
    forall i :: 0 <= i < |codes| ==> NamesCountry(codes[i])
  }

  /** The first code that names no country. */
  predicate FirstInvalid(codes: seq<Text>, i: nat) {
    i < |codes| && !NamesCountry(codes[i]) && forall j :: 0 <= j < i ==> NamesCountry(codes[j])
  }

  lemma NormalizedStored(codes: seq<Text>)
    requires AllCountries(codes)
    ensures AllStored(Elements(NormalizedAll(codes)))
  {
    var all := NormalizedAll(codes);
    forall c | c in Elements(all) ensures IsStored(c) {
      var i :| 0 <= i < |all| && all[i] == c;
      assert NamesCountry(codes[i]);
      CountryIsStored(codes[i]);
    }
  }

  lemma DeduplicatedStep(all: seq<Text>, i: nat)
    requires i < |all|
    ensures Elements(all[..i + 1]) == Elements(all[..i]) + {all[i]}
    ensures Deduplicated(all[..i + 1])
         == Deduplicated(all[..i]) + if all[i] in Elements(all[..i]) then [] else [all[i]]
  {
    assert all[..i + 1] == all[..i] + [all[i]] && all[..i + 1][..i] == all[..i];
    assert all[i] in Elements(all[..i]) <==> all[i] in all[..i];
  }

  /** The distinct countries in order of first mention, or the first code that names none. */
  method NormalizeGeoCodes(codes: seq<Text>) returns (r: Result<seq<Text>, Error>)
    ensures r.Ok? <==> AllCountries(codes)
    ensures r.Ok? ==> r.value == Deduplicated(NormalizedAll(codes)) && NoDuplicates(r.value) && AllStored(Elements(r.value))
    ensures r.Ok? ==> Elements(r.value) == Elements(NormalizedAll(codes))
    ensures r.Err? ==> exists i :: 0 <= i < |codes| && r.error == InvalidCountryCode(codes[i]) && FirstInvalid(codes, i)
  {
    var normalized: seq<Text> := [];
    var seen: set<Text> := {};
    for i := 0 to |codes|
      invariant NormalizedSoFar(codes, i, normalized, seen)
    {
      NormalizedNext(codes, i, normalized, seen);
      var upper := Normalized(codes[i]);
      if !IsCountry(upper) { return Err(InvalidCountryCode(codes[i])); }
      if upper !in seen { normalized := normalized + [upper]; }
      seen := seen + {upper};
    }
    NormalizedWhole(codes);
    r := Ok(normalized);
  }

  /** The first `i` codes name countries; `normalized` and `seen` hold them. */
  ghost predicate NormalizedSoFar(codes: seq<Text>, i: nat, normalized: seq<Text>, seen: set<Text>) {
    && i <= |codes| && (forall j :: 0 <= j < i ==> NamesCountry(codes[j]))
    && normalized == Deduplicated(NormalizedAll(codes)[..i]) && seen == Elements(NormalizedAll(codes)[..i])
  }

  lemma NormalizedNext(codes: seq<Text>, i: nat, normalized: seq<Text>, seen: set<Text>)
    requires i < |codes| && NormalizedSoFar(codes, i, normalized, seen)
    ensures var upper := Normalized(codes[i]);
            if IsCountry(upper) then
              NormalizedSoFar(codes, i + 1, if upper in seen then normalized else normalized + [upper], seen + {upper})
            else FirstInvalid(codes, i)
  {
    DeduplicatedStep(NormalizedAll(codes), i);
    assert NamesCountry(codes[i]) <==> IsCountry(Normalized(codes[i]));
  }

  lemma NormalizedWhole(codes: seq<Text>)
    requires AllCountries(codes)
    ensures var all := NormalizedAll(codes);
            && all[..|codes|] == all && NoDuplicates(Deduplicated(all))
            && Elements(Deduplicated(all)) == Elements(all) && AllStored(Elements(all))
  {
    DeduplicatedMeans(NormalizedAll(codes));
    NormalizedStored(codes);
  }

  /** The listed codes that are, or are not, in `current`. */
  method Filter(codes: seq<Text>, current: set<Text>, keep: bool) returns (delta: seq<Text>)
    ensures Elements(delta) == set c | c in codes && (c in current <==> keep)
  {
    delta := [];
    for i := 0 to |codes|
      invariant Elements(delta) == set c | c in codes[..i] && (c in current <==> keep)
    {
      assert codes[..i + 1] == codes[..i] + [codes[i]];
      if codes[i] in current <==> keep {
        assert Elements(delta + [codes[i]]) == Elements(delta) + {codes[i]};
        delta := delta + [codes[i]];
      }
    }
    assert codes[..|codes|] == codes;
  }

  class AclService {
    const geo: GeoBlock
    /** The rows of `geo_blocked_countries`. */
    var stored: set<Text>

    constructor (geo: GeoBlock, stored: set<Text>)
      ensures this.geo == geo && this.stored == stored
    {
      this.geo, this.stored := geo, stored;
    }

    method CurrentGeoSet() returns (current: set<Text>)
      requires geo.Valid()
      ensures current == geo.blocked
    {
      current := set c | c in geo.blocked :: Normalized(c);
      forall c | c in geo.blocked ensures Normalized(c) == c { StoredIsNormal(c); }
    }

    /** At start-up: the countries of the rows are blocked again, and rows written by the calls
        below name exactly themselves. */
    method RestoreGeoCountries(rows: seq<Text>, file: Option<Index>, f4: Faults, f6: Faults)
      requires geo.Valid()
      modifies geo, geo.v4, geo.v6
      ensures geo.Valid()
      ensures geo.blocked == old(geo.blocked) + if old(geo.CannotRebuild(geo.blocked + Countries(rows), file)) then {} else Countries(rows)
      ensures AllStored(Elements(rows)) ==> Countries(rows) == Elements(rows)
      ensures old(geo.Exact()) && f4 == f6 == NoFaults ==> geo.Exact()
    {
      if AllStored(Elements(rows)) { StoredCodes(rows); }
      if rows == [] { return; }
      var r := geo.BlockCountries(rows, file, f4, f6);
    }

    /** A successful call blocks and stores the codes; a failed one leaves the blocked set, the
        rows and, where no trie operation fails, both tries exactly as they were. */
    method BlockGeoCountries(codes: seq<Text>, file: Option<Index>, databaseOk: bool, f4: Faults, f6: Faults)
      returns (r: Result<nat, Error>)
      requires geo.Valid()
      modifies this, geo, geo.v4, geo.v6
      ensures geo.Valid()
      ensures r.Ok? <==> && AllCountries(codes) && databaseOk
                         && !old(geo.CannotRebuild(geo.blocked + Elements(NormalizedAll(codes)), file))
      ensures r.Ok? ==> geo.blocked == old(geo.blocked) + Elements(NormalizedAll(codes))
                        && stored == old(stored) + Elements(NormalizedAll(codes))
      ensures r.Err? ==> geo.blocked == old(geo.blocked) && stored == old(stored)
      ensures old(geo.Exact()) && f4 == f6 == NoFaults ==> geo.Exact()
      ensures r.Err? && old(geo.Exact()) && f4 == f6 == NoFaults ==>
                geo.v4.keys == old(geo.v4.keys) && geo.v6.keys == old(geo.v6.keys)
    {
      var normalized := NormalizeGeoCodes(codes);
      if normalized.Err? { return Err(normalized.error); }
      var wanted := normalized.value;
      var current := CurrentGeoSet();
      var delta := Filter(wanted, current, false);
      StoredCodes(wanted);
      r := geo.BlockCountries(wanted, file, f4, f6);
      if r.Err? { return; }
      if databaseOk {
        stored := stored + Elements(wanted);
        return;
      }
      StoredCodes(delta);
      var undone := geo.UnblockCountries(delta, file, f4, f6);
      return Err(DatabaseFailed);
    }

    method UnblockGeoCountries(codes: seq<Text>, file: Option<Index>, databaseOk: bool, f4: Faults, f6: Faults)
      returns (r: Result<nat, Error>)
      requires geo.Valid()
      modifies this, geo, geo.v4, geo.v6
      ensures geo.Valid()
      ensures r.Ok? <==> && AllCountries(codes) && databaseOk
                         && !old(geo.CannotRebuild(geo.blocked - Elements(NormalizedAll(codes)), file))
      ensures r.Ok? ==> geo.blocked == old(geo.blocked) - Elements(NormalizedAll(codes))
                        && stored == old(stored) - Elements(NormalizedAll(codes))
      ensures r.Err? ==> geo.blocked == old(geo.blocked) && stored == old(stored)
      ensures old(geo.Exact()) && f4 == f6 == NoFaults ==> geo.Exact()
      ensures r.Err? && old(geo.Exact()) && f4 == f6 == NoFaults ==>
                geo.v4.keys == old(geo.v4.keys) && geo.v6.keys == old(geo.v6.keys)
    {
      var normalized := NormalizeGeoCodes(codes);
      if normalized.Err? { return Err(normalized.error); }
      var wanted := normalized.value;
      var current := CurrentGeoSet();
      var delta := Filter(wanted, current, true);
      StoredCodes(wanted);
      r := geo.UnblockCountries(wanted, file, f4, f6);
      if r.Err? { return; }
      if databaseOk {
        stored := stored - Elements(wanted);
        return;
      }
      StoredCodes(delta);
      var undone := geo.BlockCountries(delta, file, f4, f6);
      return Err(DatabaseFailed);
    }
  }
}
