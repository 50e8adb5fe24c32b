// Well-formed UTF-8 (section 4 of RFC 3629) and the character boundaries of Rust's `str`.

module Utf8 {
  import opened Basics

  predicate IsTail(b: Byte) {
    0x80 <= b < 0xC0
  }

  /** The length of the well-formed character at the head of `s`; 0 where there is none. */
  function CharLength(s: seq<Byte>): (n: nat)
    ensures n <= |s| && n <= 4
  {
    if s == [] then 0
    else if s[0] < 0x80 then 1
    else if 0xC2 <= s[0] < 0xE0 then if |s| >= 2 && IsTail(s[1]) then 2 else 0
    else if 0xE0 <= s[0] < 0xF0 then
      if |s| >= 3 && IsTail(s[1]) && IsTail(s[2])
         && (s[0] == 0xE0 ==> s[1] >= 0xA0) && (s[0] == 0xED ==> s[1] < 0xA0) then 3 else 0
    else if 0xF0 <= s[0] < 0xF5 && |s| >= 4 && IsTail(s[1]) && IsTail(s[2]) && IsTail(s[3])
            && (s[0] == 0xF0 ==> s[1] >= 0x90) && (s[0] == 0xF4 ==> s[1] < 0x90) then 4 else 0
  }

  /** `str::from_utf8` succeeds. */
  predicate ValidUtf8(s: seq<Byte>) {
    s == [] || (CharLength(s) > 0 && ValidUtf8(s[CharLength(s)..]))
  }

  /** The number that `n` bytes from the head carry: a lead byte less its marker, then tails of six
      bits each. */
  function CodePoint(s: seq<Byte>, n: nat): (c: int)
    requires 1 <= n <= 4 && n <= |s|
  {
    var b0: int := s[0];
    if n == 1 then b0
    else
      var b1: int := s[1];
      if n == 2 then (b0 - 0xC0) * 64 + (b1 - 0x80)
      else
        var b2: int := s[2];
        if n == 3 then (b0 - 0xE0) * 4096 + (b1 - 0x80) * 64 + (b2 - 0x80)
        else
          var b3: int := s[3];
          (b0 - 0xF0) * 262144 + (b1 - 0x80) * 4096 + (b2 - 0x80) * 64 + (b3 - 0x80)
  }

  /** The first `n` bytes spell a code point in the shortest form, and it is no surrogate (section 3
      of RFC 3629). */
  predicate SpellsChar(s: seq<Byte>, n: nat)
    requires 1 <= n <= 4 && n <= |s|
  {
    var c := CodePoint(s, n);
    && (forall i :: 1 <= i < n ==> IsTail(s[i]))
    && (if n == 1 then 0 <= c < 0x80
        else if n == 2 then 0x80 <= c < 0x800
        else if n == 3 then 0x800 <= c < 0x1_0000 && !(0xD800 <= c < 0xE000)
        else 0x1_0000 <= c < 0x11_0000)
  }

  /** A character stands at the head exactly when its bytes spell a code point. */
  lemma CharLengthExactly(s: seq<Byte>, n: nat)
    requires 1 <= n <= 4 && n <= |s|
    ensures CharLength(s) == n <==> SpellsChar(s, n)
  {
    assert n > 1 ==> (SpellsChar(s, n) ==> IsTail(s[1]));
    assert n > 2 ==> (SpellsChar(s, n) ==> IsTail(s[2]));
    assert n > 3 ==> (SpellsChar(s, n) ==> IsTail(s[3]));
  }

  /** `str::is_char_boundary`. */
  predicate IsBoundary(s: seq<Byte>, i: nat) {
    i == 0 || i == |s| || (i < |s| && !IsTail(s[i]))
  }

  lemma {:induction false} AsciiIsUtf8(s: seq<Byte>)
    requires forall i :: 0 <= i < |s| ==> s[i] < 128
    ensures ValidUtf8(s)
  {
    if s != [] { AsciiIsUtf8(s[1..]); }
  }

  lemma CharLengthLocal(s: seq<Byte>, t: seq<Byte>)
    requires CharLength(s) > 0 && CharLength(s) <= |t|
    requires forall k :: 0 <= k < CharLength(s) ==> s[k] == t[k]
    ensures CharLength(t) == CharLength(s)
  {
    var n := CharLength(s);
    assert s[0] == t[0];
    assert n >= 2 ==> s[1] == t[1];
    assert n >= 3 ==> s[2] == t[2];
    assert n >= 4 ==> s[3] == t[3];
  }

  lemma NoBoundaryInside(s: seq<Byte>, i: nat)
    requires 0 < i < CharLength(s)
    ensures !IsBoundary(s, i)
  {}

  /** A character in front of a valid text. */
  lemma ConsIsUtf8(c: seq<Byte>, t: seq<Byte>)
    requires c != [] && CharLength(c) == |c| && ValidUtf8(t)
    ensures ValidUtf8(c + t)
  {
    CharLengthLocal(c, c + t);
    assert (c + t)[|c|..] == t;
  }

  lemma HeadIsCharacter(s: seq<Byte>)
    requires CharLength(s) > 0
    ensures CharLength(s[..CharLength(s)]) == CharLength(s)
  {
    CharLengthLocal(s, s[..CharLength(s)]);
  }

  /** A valid text cut at a character boundary is valid. */
  lemma {:induction false} PrefixIsUtf8(s: seq<Byte>, i: nat)
    requires ValidUtf8(s) && i <= |s| && IsBoundary(s, i)
    ensures ValidUtf8(s[..i])
    decreases |s|
  {
    if i > 0 {
      var n := CharLength(s);
      if i < n { NoBoundaryInside(s, i); }
      PrefixIsUtf8(s[n..], i - n);
      HeadIsCharacter(s);
      ConsIsUtf8(s[..n], s[n..][..i - n]);
      assert s[..i] == s[..n] + s[n..][..i - n];
    }
  }

  lemma {:induction false} AppendIsUtf8(a: seq<Byte>, b: seq<Byte>)
    requires ValidUtf8(a) && ValidUtf8(b)
    ensures ValidUtf8(a + b)
    decreases |a|
  {
    if a == [] {
      assert a + b == b;
    } else {
      var n := CharLength(a);
      assert a + b == a[..n] + (a[n..] + b);
      HeadIsCharacter(a);
      AppendIsUtf8(a[n..], b);
      ConsIsUtf8(a[..n], a[n..] + b);
    }
  }
}
