/**
  The handful of Python `str` operations the heading engine is built from,
  with Python's semantics: `strip`, `lstrip(chars)`, `find`, `count` with
  slice bounds, `startswith`, `split`, `join`, `lower` and the `in` test.
*/
module PyStr {

  /** Python's `str.isspace()`: the characters `strip()` removes. */
  predicate IsSpace(c: char) {
    var n := c as int;
    (9 <= n <= 13) || (28 <= n <= 32) || n == 0x85 || n == 0xA0 || n == 0x1680
    || (0x2000 <= n <= 0x200A) || n == 0x2028 || n == 0x2029 || n == 0x202F
    || n == 0x205F || n == 0x3000
  }

  ghost predicate AllSpace(s: string) {
    forall i :: 0 <= i < |s| ==> IsSpace(s[i])
  }

  /** `s.lstrip()`. */
  function LStrip(s: string): string {
    if s != [] && IsSpace(s[0]) then LStrip(s[1..]) else s
  }

  /** `s.rstrip()`. */
  function RStrip(s: string): string {
    if s != [] && IsSpace(s[|s| - 1]) then RStrip(s[..|s| - 1]) else s
  }

  /** `s.strip()`. */
  function Strip(s: string): string {
    LStrip(RStrip(s))
  }

  /** `s.lstrip(chars)`. */
  function LStripChars(s: string, chars: set<char>): string {
    if s != [] && s[0] in chars then LStripChars(s[1..], chars) else s
  }

  /** `lstrip()` removes exactly the leading whitespace. */
  lemma {:induction false} LStripSpec(s: string)
    ensures var r := LStrip(s);
      |r| <= |s| && r == s[|s| - |r|..] && AllSpace(s[..|s| - |r|]) && (r == [] || !IsSpace(r[0]))
  {
    if s != [] && IsSpace(s[0]) {
      LStripSpec(s[1..]);
      var r := LStrip(s);
      assert s[..|s| - |r|] == [s[0]] + s[1..][..|s| - 1 - |r|];
    }
  }

  /** `rstrip()` removes exactly the trailing whitespace. */
  lemma {:induction false} RStripSpec(s: string)
    ensures var r := RStrip(s);
      |r| <= |s| && r == s[..|r|] && AllSpace(s[|r|..]) && (r == [] || !IsSpace(r[|r| - 1]))
  {
    if s != [] && IsSpace(s[|s| - 1]) {
      var t := s[..|s| - 1];
      RStripSpec(t);
      var r := RStrip(s);
      assert s[|r|..] == t[|r|..] + [s[|s| - 1]];
    }
  }

  /** `strip()` yields a string that neither starts nor ends with whitespace, and is empty
      exactly when the input is all whitespace. */
  lemma StripSpec(s: string)
    ensures var r := Strip(s);
      |r| <= |s| && (r == [] || (!IsSpace(r[0]) && !IsSpace(r[|r| - 1]))) && (r == [] <==> AllSpace(s))
  {
    var t := RStrip(s);
    var r := LStrip(t);
    RStripSpec(s);
    LStripSpec(t);
    assert AllSpace(t) ==> t == [] by {
      if t != [] { assert !IsSpace(t[|t| - 1]); }
    }
    assert t == [] ==> AllSpace(s) by {
      if t == [] { assert s[|t|..] == s; }
    }
    assert r == [] ==> AllSpace(t) by {
      if r == [] { assert t[..|t| - |r|] == t; }
    }
    assert r != [] ==> !AllSpace(s) by {
      if r != [] {
        var j := |t| - |r|;
        assert r[0] == t[j] == s[j];
      }
    }
    if r != [] {
      assert r[|r| - 1] == t[|t| - 1];
    }
  }

  /** `lstrip(chars)` removes exactly the leading characters drawn from `chars`. */
  lemma {:induction false} LStripCharsSpec(s: string, chars: set<char>)
    ensures var r := LStripChars(s, chars);
      |r| <= |s| && r == s[|s| - |r|..] && (forall i :: 0 <= i < |s| - |r| ==> s[i] in chars) &&
      (r == [] || r[0] !in chars)
  {
    if s != [] && s[0] in chars {
      LStripCharsSpec(s[1..], chars);
      var r := LStripChars(s, chars);
      forall i | 0 <= i < |s| - |r| ensures s[i] in chars {
        if i > 0 { assert s[i] == s[1..][i - 1]; }
      }
    }
  }

  /** `s.find(c)` for a one-character needle: the first index of `c`, or -1. */
  function Find(s: string, c: char): int {
    if s == [] then -1
    else if s[0] == c then 0
    else
      var k := Find(s[1..], c);
      if k == -1 then -1 else k + 1
  }

  /** `find` answers -1 exactly when the character is absent, and otherwise its first index. */
  lemma {:induction false} FindSpec(s: string, c: char)
    ensures var r := Find(s, c);
      -1 <= r < |s| && (r == -1 <==> c !in s) && (r >= 0 ==> s[r] == c && c !in s[..r])
  {
    if s != [] && s[0] != c {
      FindSpec(s[1..], c);
      var k := Find(s[1..], c);
      if k != -1 {
        assert s[..k + 1] == [s[0]] + s[1..][..k];
      }
    }
  }

  /** Python's normalisation of a slice end `e` against a length `n`. */
  function SliceIndex(e: int, n: nat): (r: nat)
    ensures r <= n
    ensures 0 <= e <= n ==> r == e
    ensures -(n as int) <= e < 0 ==> r as int == n as int + e
  {
    if e < 0 then (if e + n < 0 then 0 else e + n) else if e > n then n else e
  }

  /** The number of occurrences of `c` in `s`. */
  function Occurrences(s: string, c: char): nat {
    if s == [] then 0 else (if s[0] == c then 1 else 0) + Occurrences(s[1..], c)
  }

  /** The count is the number of positions holding `c` (its multiplicity in `s`); so it is
      bounded by the length, reaches it exactly when every character is `c`, and is zero
      exactly when `c` is absent. */
  lemma {:induction false} OccurrencesSpec(s: string, c: char)
    ensures var r := Occurrences(s, c);
      r == multiset(s)[c] && r <= |s| &&
      (r == |s| <==> forall i :: 0 <= i < |s| ==> s[i] == c) && (r == 0 <==> c !in s)
  {
    if s != [] {
      OccurrencesSpec(s[1..], c);
      assert s == [s[0]] + s[1..];
      assert multiset(s) == multiset{s[0]} + multiset(s[1..]);
      assert forall i :: 1 <= i < |s| ==> s[i] == s[1..][i - 1];
    }
  }

  /** `s.count(c, 0, e)`. */
  function CountUpTo(s: string, c: char, e: int): (r: nat)
    ensures 0 <= e <= |s| ==> r == multiset(s[..e])[c]
    ensures e > |s| ==> r == multiset(s)[c]
    ensures -|s| <= e < 0 ==> r == multiset(s[..|s| + e])[c]
  {
    OccurrencesSpec(s[..SliceIndex(e, |s|)], c);
    assert s[..|s|] == s;
    Occurrences(s[..SliceIndex(e, |s|)], c)
  }

  predicate StartsWith(s: string, c: char) {
    |s| > 0 && s[0] == c
  }

  /** `s.split(sep)` for a one-character separator. */
  function Split(s: string, sep: char): (r: seq<string>)
    ensures |r| >= 1
    ensures forall i :: 0 <= i < |r| ==> sep !in r[i]
  {
    if s == [] then [[]]
    else
      var rest := Split(s[1..], sep);
      if s[0] == sep then [[]] + rest else [[s[0]] + rest[0]] + rest[1..]
  }

  /** `sep.join(parts)`. */
  function Join(parts: seq<string>, sep: string): string {
    if |parts| == 0 then []
    else if |parts| == 1 then parts[0]
    else parts[0] + sep + Join(parts[1..], sep)
  }

  /** Splitting at a separator and joining with it gives the string back. */
  lemma {:induction false} JoinSplit(s: string, sep: char)
    ensures Join(Split(s, sep), [sep]) == s
  {
    if s != [] {
      var rest := Split(s[1..], sep);
      JoinSplit(s[1..], sep);
      if s[0] == sep {
        assert Split(s, sep) == [[]] + rest;
        assert ([[]] + rest)[1..] == rest;
      } else {
        assert Split(s, sep) == [[s[0]] + rest[0]] + rest[1..];
        if |rest| == 1 {
        } else {
          assert ([[s[0]] + rest[0]] + rest[1..])[1..] == rest[1..];
          assert Join(rest, [sep]) == rest[0] + [sep] + Join(rest[1..], [sep]);
        }
      }
    }
  }

  /** ASCII lower-casing of one character. */
  function LowerChar(c: char): char {
    if 'A' <= c <= 'Z' then (c as int + 32) as char else c
  }

  /** `s.lower()`, restricted to ASCII letters. */
  function Lower(s: string): (r: string)
    ensures |r| == |s|
  {
    seq(|s|, i requires 0 <= i < |s| => LowerChar(s[i]))
  }

  /** `needle in hay`: `needle` occurs as a contiguous substring of `hay`. */
  predicate Contains(hay: string, needle: string) {
    exists i :: 0 <= i <= |hay| - |needle| && IsInfixAt(hay, needle, i)
  }

  predicate IsInfixAt(hay: string, needle: string, i: int) {
    0 <= i && i + |needle| <= |hay| && hay[i..i + |needle|] == needle
  }

  /** `lower()` maps each ASCII capital to its small letter and keeps every other character,
      so no ASCII capital is left. */
  lemma LowerSpec(s: string)
    ensures var r := Lower(s);
      forall i :: 0 <= i < |s| ==>
        !('A' <= r[i] <= 'Z') &&
        (if 'A' <= s[i] <= 'Z' then r[i] as int - 'a' as int == s[i] as int - 'A' as int else r[i] == s[i])
  {
  }

  /** Lower-casing twice is lower-casing once. */
  lemma {:induction false} LowerIdempotent(s: string)
    ensures Lower(Lower(s)) == Lower(s)
  {
    LowerSpec(s);
    LowerSpec(Lower(s));
  }
}
