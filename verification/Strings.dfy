/** The string operations of Rust's standard library that the other modules lean on. */
module Strings {

  // ----- the ASCII letters and digits, one by one

  const LOWERCASE: set<char> :=
    {'a', 'b', 'c', 'd', 'e', 'f', 'g', 'h', 'i', 'j', 'k', 'l', 'm',
     'n', 'o', 'p', 'q', 'r', 's', 't', 'u', 'v', 'w', 'x', 'y', 'z'}

  const UPPERCASE: set<char> :=
    {'A', 'B', 'C', 'D', 'E', 'F', 'G', 'H', 'I', 'J', 'K', 'L', 'M',
     'N', 'O', 'P', 'Q', 'R', 'S', 'T', 'U', 'V', 'W', 'X', 'Y', 'Z'}

  const DIGITS: set<char> := {'0', '1', '2', '3', '4', '5', '6', '7', '8', '9'}

  lemma Alphabets(c: char)
    ensures c in LOWERCASE <==> 'a' <= c <= 'z'
    ensures c in UPPERCASE <==> 'A' <= c <= 'Z'
    ensures c in DIGITS <==> '0' <= c <= '9'
  {
  }

  /** Where `c` first occurs in `s`, from place `from` on: `|s|` when it does not. */
  function FindFrom(s: string, c: char, from: nat): (i: nat)
    requires from <= |s|
    ensures from <= i <= |s|
    ensures i < |s| ==> s[i] == c
    ensures forall j | from <= j < i :: s[j] != c
    decreases |s| - from
  {
    if from == |s| || s[from] == c then from else FindFrom(s, c, from + 1)
  }

  function Find(s: string, c: char): (i: nat)
    ensures i <= |s|
    ensures i < |s| ==> s[i] == c
    ensures forall j | 0 <= j < i :: s[j] != c
  {
    FindFrom(s, c, 0)
  }

  lemma FindAt(a: string, c: char, b: string)
    requires c !in a
    ensures Find(a + ([c] + b), c) == |a|
    ensures (a + ([c] + b))[..|a|] == a && (a + ([c] + b))[|a| + 1..] == b
  {
    var s := a + ([c] + b);
    assert s[|a|] == c;
    assert forall i | 0 <= i < |a| :: s[i] == a[i];
  }

  /** `needle` stands at place `at` of `s`. */
  predicate Occurs(s: string, needle: string, at: nat) {
    at + |needle| <= |s| && s[at..at + |needle|] == needle
  }

  /** Where `needle` first occurs, from place `from` on; `|s| + 1` when it does not. */
  function FindText(s: string, needle: string, from: nat): (i: nat)
    requires from <= |s| + 1
    ensures from <= i <= |s| + 1
    ensures i <= |s| ==> Occurs(s, needle, i)
    ensures forall j | from <= j < i :: !Occurs(s, needle, j)
    decreases |s| + 1 - from
  {
    if from > |s| || Occurs(s, needle, from) then from else FindText(s, needle, from + 1)
  }

  /** `str::match_indices`: the occurrences met when each search starts behind the one before. */
  function MatchIndices(s: string, needle: string, from: nat): (r: seq<nat>)
    requires needle != [] && from <= |s|
    ensures forall i | 0 <= i < |r| :: r[i] >= from && Occurs(s, needle, r[i])
    decreases |s| - from
  {
    var at := FindText(s, needle, from);
    if at > |s| then [] else [at] + MatchIndices(s, needle, at + |needle|)
  }

  /** Rust's `char::is_whitespace`. */
  predicate IsWhitespace(c: char) {
    var n := c as int;
    || 0x09 <= n <= 0x0D || n in {0x20, 0x85, 0xA0, 0x1680} || 0x2000 <= n <= 0x200A
    || n in {0x2028, 0x2029, 0x202F, 0x205F, 0x3000}
  }

  predicate AllWhitespace(s: string) {
    forall i | 0 <= i < |s| :: IsWhitespace(s[i])
  }

  function TrimStart(s: string): string {
    if s != [] && IsWhitespace(s[0]) then TrimStart(s[1..]) else s
  }

  function TrimEnd(s: string): string {
    if s != [] && IsWhitespace(s[|s| - 1]) then TrimEnd(s[..|s| - 1]) else s
  }

  function TrimDots(s: string): string {
    if s != [] && s[|s| - 1] == '.' then TrimDots(s[..|s| - 1]) else s
  }

  /** Whitespace, and then what does not start with any. */
  lemma {:induction false} TrimStartIs(s: string) returns (before: string)
    ensures s == before + TrimStart(s) && AllWhitespace(before)
    ensures TrimStart(s) != [] ==> !IsWhitespace(TrimStart(s)[0])
  {
    if s != [] && IsWhitespace(s[0]) {
      before := TrimStartIs(s[1..]);
      before := [s[0]] + before;
    } else {
      before := [];
    }
  }

  /** What does not end in whitespace, and then some. */
  lemma {:induction false} TrimEndIs(s: string) returns (after: string)
    ensures s == TrimEnd(s) + after && AllWhitespace(after)
    ensures TrimEnd(s) != [] ==> !IsWhitespace(TrimEnd(s)[|TrimEnd(s)| - 1])
  {
    if s != [] && IsWhitespace(s[|s| - 1]) {
      after := TrimEndIs(s[..|s| - 1]);
      after := after + [s[|s| - 1]];
    } else {
      after := [];
    }
  }

  /** What does not end in a dot, and then dots. */
  lemma {:induction false} TrimDotsIs(s: string) returns (dots: string)
    ensures s == TrimDots(s) + dots && forall i | 0 <= i < |dots| :: dots[i] == '.'
    ensures TrimDots(s) != [] ==> TrimDots(s)[|TrimDots(s)| - 1] != '.'
  {
    if s != [] && s[|s| - 1] == '.' {
      dots := TrimDotsIs(s[..|s| - 1]);
      dots := dots + ".";
    } else {
      dots := [];
    }
  }

  function LowerChar(c: char): char {
    if 'A' <= c <= 'Z' then (c as int + 32) as char else c
  }

  /** The same letters, upper or lower. */
  predicate SameLetter(a: char, b: char) {
    || a == b
    || ('A' <= a <= 'Z' && b as int == a as int + 32)
    || ('A' <= b <= 'Z' && a as int == b as int + 32)
  }

  predicate SameButForCase(a: string, b: string) {
    |a| == |b| && forall i | 0 <= i < |a| :: SameLetter(a[i], b[i])
  }

  /** Lower case forgets the case of the ASCII letters and nothing else, and leaves no capital. */
  lemma LowerForgetsCase(a: string, b: string)
    ensures Lower(a) == Lower(b) <==> SameButForCase(a, b)
    ensures SameButForCase(a, Lower(a)) && forall i | 0 <= i < |a| :: !('A' <= Lower(a)[i] <= 'Z')
  {
    if SameButForCase(a, b) {
      assert Lower(a) == Lower(b);
    }
    if Lower(a) == Lower(b) {
      forall i | 0 <= i < |a|
        ensures SameLetter(a[i], b[i])
      {
        assert Lower(a)[i] == Lower(b)[i];
      }
    }
  }

  /** Trimming leaves nothing exactly of what is all whitespace. */
  lemma BlankIsTrimmedAway(s: string)
    ensures TrimEnd(TrimStart(s)) == [] <==> AllWhitespace(s)
  {
    var before := TrimStartIs(s);
    var after := TrimEndIs(TrimStart(s));
    assert TrimStart(s) != [] ==> s[|before|] == TrimStart(s)[0];
  }

  function Lower(s: string): (r: string)
    ensures |r| == |s|
    ensures forall i | 0 <= i < |s| :: r[i] == LowerChar(s[i])
  {
    seq(|s|, i requires 0 <= i < |s| => LowerChar(s[i]))
  }
}
