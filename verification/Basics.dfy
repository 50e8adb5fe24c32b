// Vocabulary shared by the models: bytes, failures, and text as the ASCII part of
// Rust's `str`.

module Basics {
  type Byte = x: int | 0 <= x < 256

  datatype Option<+T> = None | Some(value: T)

  datatype Result<+T, +E> = Ok(value: T) | Err(error: E)

  /** `u16::from_be_bytes([hi, lo])`. */
  function BigEndian16(hi: Byte, lo: Byte): (n: nat)
    ensures n < 0x1_0000
  {
    hi * 256 + lo
  }

  /** The two bytes spell `n`, the first weighing 256. */
  predicate Spell16(hi: Byte, lo: Byte, n: int) {
    n == 256 * hi + lo
  }

  lemma SpelledExactly(hi: Byte, lo: Byte, n: int)
    ensures Spell16(hi, lo, n) <==> BigEndian16(hi, lo) == n
  {}

  function Zeros(n: nat): (z: seq<Byte>)
    ensures |z| == n
    ensures forall i :: 0 <= i < n ==> z[i] == 0
  {
    seq(n, _ => 0)
  }

  function Min(a: nat, b: nat): (m: nat) {
    if a < b then a else b
  }

  /** `now.duration_since(t)`, zero when `t` is later. */
  function Since(now: int, t: int): (d: nat) {
    if now >= t then now - t else 0
  }

  /** Some subset has the given size and holds the given element. */
  lemma {:induction false} SubsetWith<T>(s: set<T>, x: T, n: nat) returns (t: set<T>)
    requires x in s && 1 <= n <= |s|
    ensures t <= s && x in t && |t| == n
    decreases |s|
  {
    if n == |s| {
      t := s;
    } else {
      assert s - {x} != {} by { assert |s| > 1; assert s == s - {x} + {x}; }
      var y :| y in s - {x};
      t := SubsetWith(s - {y}, x, n);
    }
  }

  predicate NoDuplicates<T(==)>(s: seq<T>) {
    forall i, j :: 0 <= i < j < |s| ==> s[i] != s[j]
  }
}

module AsciiText {
  import Basics

  type Ascii = x: int | 0 <= x < 128

  type Text = seq<Ascii>

  const DOT: Ascii := 46
  const HYPHEN: Ascii := 45

  /** `char::is_whitespace` on ASCII. */
  predicate IsSpace(c: Ascii) {
    9 <= c <= 13 || c == 32
  }

  predicate IsUpper(c: int) {
    65 <= c <= 90
  }

  predicate IsLetter(c: int) {
    IsUpper(c) || 97 <= c <= 122
  }

  predicate IsAlphanumeric(c: int) {
    IsLetter(c) || 48 <= c <= 57
  }

  function TrimStart(s: Text): (t: Text) {
    if s != [] && IsSpace(s[0]) then TrimStart(s[1..]) else s
  }

  function TrimEnd(s: Text): (t: Text) {
    if s != [] && IsSpace(s[|s| - 1]) then TrimEnd(s[..|s| - 1]) else s
  }

  /** `str::trim`. */
  function Trim(s: Text): (t: Text) {
    TrimEnd(TrimStart(s))
  }

  /** `str::trim_end_matches('.')`. */
  function StripDots(s: Text): (t: Text) {
    if s != [] && s[|s| - 1] == DOT then StripDots(s[..|s| - 1]) else s
  }

  /** `u8::to_ascii_lowercase`. */
  function LowerByte(b: Basics.Byte): (r: Basics.Byte)
    ensures b < 128 ==> r < 128
  {
    if IsUpper(b) then b + 32 else b
  }

  /** `str::to_lowercase` on ASCII. */
  function Lower(s: Text): (t: Text)
    ensures |t| == |s|
  {
    seq(|s|, i requires 0 <= i < |s| => LowerByte(s[i]))
  }

  /** `str::to_uppercase` on ASCII. */
  function Upper(s: Text): (t: Text)
    ensures |t| == |s|
  {
    seq(|s|, i requires 0 <= i < |s| => if IsLetter(s[i]) && !IsUpper(s[i]) then s[i] - 32 else s[i])
  }

  /** `str::split('.')`. */
  function Split(s: Text): (parts: seq<Text>)
    ensures |parts| >= 1
  {
    if s == [] then [[]]
    else
      var rest := Split(s[1..]);
      if s[0] == DOT then [[]] + rest
      else [[s[0]] + rest[0]] + rest[1..]
  }

  /** Inverse of `Split`. */
  function Join(parts: seq<Text>): (s: Text)
    requires |parts| >= 1
  {
    if |parts| == 1 then parts[0] else parts[0] + [DOT] + Join(parts[1..])
  }

  lemma {:induction false} JoinSplit(s: Text)
    ensures Join(Split(s)) == s
  {
    if s != [] {
      var rest := Split(s[1..]);
      JoinSplit(s[1..]);
      if s[0] == DOT {
        assert Split(s)[1..] == rest;
      } else {
        assert Split(s)[1..] == rest[1..];
      }
    }
  }

  // ----- what trimming leaves -----

  predicate IsBlank(c: int) {
    9 <= c <= 13 || c == 32
  }

  predicate Spaces(s: Text) {
    forall i :: 0 <= i < |s| ==> IsBlank(s[i])
  }

  predicate Dots(s: Text) {
    forall i :: 0 <= i < |s| ==> s[i] == 46
  }

  /** Neither end is white space. */
  predicate Solid(s: Text) {
    s != [] && !IsBlank(s[0]) && !IsBlank(s[|s| - 1])
  }

  lemma {:induction false} TrimStartDrops(pre: Text, s: Text)
    requires Spaces(pre) && s != [] && !IsBlank(s[0])
    ensures TrimStart(pre + s) == s
    decreases |pre|
  {
    if pre == [] {
      assert pre + s == s;
    } else {
      assert (pre + s)[1..] == pre[1..] + s;
      TrimStartDrops(pre[1..], s);
    }
  }

  lemma {:induction false} TrimEndDrops(s: Text, post: Text)
    requires Spaces(post) && s != [] && !IsBlank(s[|s| - 1])
    ensures TrimEnd(s + post) == s
    decreases |post|
  {
    if post == [] {
      assert s + post == s;
    } else {
      assert (s + post)[..|s + post| - 1] == s + post[..|post| - 1];
      TrimEndDrops(s, post[..|post| - 1]);
    }
  }

  /** White space around a text that neither begins nor ends with it is what trimming drops. */
  lemma TrimDrops(pre: Text, core: Text, post: Text)
    requires Spaces(pre) && Spaces(post) && Solid(core)
    ensures Trim(pre + core + post) == core
  {
    assert pre + core + post == pre + (core + post);
    TrimStartDrops(pre, core + post);
    TrimEndDrops(core, post);
  }

  lemma {:induction false} StripDotsDrops(core: Text, dots: Text)
    requires Dots(dots) && core != [] && core[|core| - 1] != 46
    ensures StripDots(core + dots) == core
    decreases |dots|
  {
    if dots == [] {
      assert core + dots == core;
    } else {
      assert (core + dots)[..|core + dots| - 1] == core + dots[..|dots| - 1];
      StripDotsDrops(core, dots[..|dots| - 1]);
    }
  }

  /** The same text but for the case of letters. */
  predicate SameButCase(a: Text, b: Text) {
    && |a| == |b|
    && forall i :: 0 <= i < |a| ==>
         a[i] == b[i] || (65 <= a[i] <= 90 && b[i] == a[i] + 32) || (65 <= b[i] <= 90 && a[i] == b[i] + 32)
  }

  lemma LowerIgnoresCase(a: Text, b: Text)
    requires SameButCase(a, b)
    ensures Lower(a) == Lower(b)
  {}
}
