/** The fence around a rendered repository URL: no spelling of a `..` segment gets through. */
module UrlFence {
  import opened Bytes
  import opened Splitting

  const PERCENT: Byte := 0x25
  const DOT: Byte := 0x2E
  const SEPARATORS: set<Byte> := {0x2F, 0x5C, 0x3F, 0x23}
  const MAX_DECODE_PASSES := 4

  predicate IsHex(b: Byte) {
    0x30 <= b <= 0x39 || 0x41 <= b <= 0x46 || 0x61 <= b <= 0x66
  }

  function HexValue(b: Byte): (v: int)
    requires IsHex(b)
    ensures 0 <= v < 16
  {
    if b <= 0x39 then b - 0x30 else if b <= 0x46 then b - 0x41 + 10 else b - 0x61 + 10
  }

  predicate EscapeAt(s: Text, i: nat) {
    i + 2 < |s| && s[i] == PERCENT && IsHex(s[i + 1]) && IsHex(s[i + 2])
  }

  function Escaped(s: Text, i: nat): Byte
    requires EscapeAt(s, i)
  {
    HexValue(s[i + 1]) * 16 + HexValue(s[i + 2])
  }

  // ----- one pass

  /** One pass of percent-decoding: a `%` without two hex digits behind it stays. */
  function Decode(s: Text): (r: Text)
    ensures |r| <= |s|
    ensures r == s || |r| < |s|
  {
    if s == [] then []
    else if EscapeAt(s, 0) then [Escaped(s, 0)] + Decode(s[3..])
    else [s[0]] + Decode(s[1..])
  }

  lemma DecodeFrom(s: Text, i: nat)
    requires i < |s|
    ensures Decode(s[i..]) ==
            if EscapeAt(s, i) then [Escaped(s, i)] + Decode(s[i + 3..]) else [s[i]] + Decode(s[i + 1..])
  {
  }

  lemma Shift(out: Text, b: Byte, rest: Text)
    ensures out + [b] + rest == out + ([b] + rest)
  {
  }

  method PercentDecode(bytes: Text) returns (out: Text)
    ensures out == Decode(bytes)
  {
    out := [];
    var i := 0;
    assert bytes[0..] == bytes;
    while i < |bytes|
      invariant 0 <= i <= |bytes|
      invariant out + Decode(bytes[i..]) == Decode(bytes)
    {
      DecodeFrom(bytes, i);
      if EscapeAt(bytes, i) {
        Shift(out, Escaped(bytes, i), Decode(bytes[i + 3..]));
        out := out + [Escaped(bytes, i)];
        i := i + 3;
      } else {
        Shift(out, bytes[i], Decode(bytes[i + 1..]));
        out := out + [bytes[i]];
        i := i + 1;
      }
    }
  }

  /** Any spelling of every byte as `%XY`, in either letter case. */
  function EncodeAll(s: Text, lower: bool): (r: Text)
  {
    if s == [] then [] else [PERCENT, HexDigit(s[0] / 16, lower), HexDigit(s[0] % 16, lower)] + EncodeAll(s[1..], lower)
  }

  function HexDigit(v: int, lower: bool): Byte
    requires 0 <= v < 16
  {
    if v < 10 then 0x30 + v else if lower then 0x61 + (v - 10) else 0x41 + (v - 10)
  }

  /** One pass undoes percent-encoding. */
  lemma {:induction false} DecodeOfEncode(s: Text, lower: bool)
    ensures Decode(EncodeAll(s, lower)) == s
  {
    if s != [] {
      var e := EncodeAll(s, lower);
      assert EscapeAt(e, 0) && Escaped(e, 0) == s[0];
      assert e[3..] == EncodeAll(s[1..], lower);
      DecodeOfEncode(s[1..], lower);
    }
  }

  function Passes(s: Text, n: nat): (r: Text)
    decreases n
  {
    if n == 0 then s else Passes(Decode(s), n - 1)
  }

  predicate HasDotDot(s: Text) {
    [DOT, DOT] in Split(s, SEPARATORS)
  }

  // ----- the normal form every order of decoding leads to

  /** Put `c` in front of a text with no escapes, decoding what that completes. */
  function Push(c: Byte, t: Text): (r: Text)
    decreases |t|
  {
    if c == PERCENT && |t| >= 2 && IsHex(t[0]) && IsHex(t[1])
    then Push(HexValue(t[0]) * 16 + HexValue(t[1]), t[2..])
    else [c] + t
  }

  function Norm(s: Text): (r: Text)
  {
    if s == [] then [] else Push(s[0], Norm(s[1..]))
  }

  lemma NormOfEscape(s: Text)
    requires EscapeAt(s, 0)
    ensures Norm(s) == Push(Escaped(s, 0), Norm(s[3..]))
  {
    var t := Norm(s[3..]);
    assert s[2..][1..] == s[3..] && s[1..][1..] == s[2..];
    assert Norm(s[2..]) == [s[2]] + t;
    assert Norm(s[1..]) == [s[1]] + ([s[2]] + t);
    assert ([s[1]] + ([s[2]] + t))[2..] == t;
  }

  /** A server that decodes one escape of its choice changes the text, not its normal form. */
  ghost predicate DecodesOne(s: Text, s': Text) {
    exists i: nat :: EscapeAt(s, i) && s' == s[..i] + [Escaped(s, i)] + s[i + 3..]
  }

  lemma {:induction false} NormOfStep(s: Text, i: nat)
    requires EscapeAt(s, i)
    ensures Norm(s[..i] + [Escaped(s, i)] + s[i + 3..]) == Norm(s)
  {
    var s' := s[..i] + [Escaped(s, i)] + s[i + 3..];
    if i == 0 {
      NormOfEscape(s);
      assert s'[1..] == s[3..];
    } else {
      NormOfStep(s[1..], i - 1);
      assert s[1..][i - 1 + 3..] == s[i + 3..];
      assert s'[1..] == s[1..][..i - 1] + [Escaped(s[1..], i - 1)] + s[1..][i - 1 + 3..];
    }
  }

  lemma {:induction false} NormOfDecode(s: Text)
    ensures Norm(Decode(s)) == Norm(s)
  {
    if s != [] {
      if EscapeAt(s, 0) {
        NormOfDecode(s[3..]);
        NormOfEscape(s);
        assert Decode(s)[1..] == Decode(s[3..]);
      } else {
        NormOfDecode(s[1..]);
        assert Decode(s)[1..] == Decode(s[1..]);
      }
    }
  }

  lemma {:induction false} NormOfPasses(s: Text, n: nat)
    ensures Norm(Passes(s, n)) == Norm(s)
    decreases n
  {
    if n > 0 {
      NormOfPasses(Decode(s), n - 1);
      NormOfDecode(s);
    }
  }

  lemma {:induction false} NormOfStable(s: Text)
    requires Decode(s) == s
    ensures Norm(s) == s
  {
    if s != [] {
      assert !EscapeAt(s, 0);
      assert s == [s[0]] + s[1..];
      assert Decode(s[1..]) == Decode(s)[1..];
      NormOfStable(s[1..]);
    }
  }

  lemma {:induction false} PassesSplit(s: Text, m: nat, n: nat)
    ensures Passes(s, m + n) == Passes(Passes(s, m), n)
    decreases m
  {
    if m > 0 {
      PassesSplit(Decode(s), m - 1, n);
    }
  }

  lemma {:induction false} StableForEver(s: Text, n: nat)
    requires Decode(s) == s
    ensures Passes(s, n) == s
  {
    if n > 0 {
      StableForEver(s, n - 1);
    }
  }

  /** Decoding over and over does end, and at the normal form. */
  lemma {:induction false} PassesReachNorm(s: Text, n: nat)
    requires n >= |s|
    ensures Passes(s, n) == Norm(s)
    decreases |s|
  {
    if Decode(s) == s {
      StableForEver(s, n);
      NormOfStable(s);
    } else {
      PassesReachNorm(Decode(s), n - 1);
      NormOfDecode(s);
    }
  }

  // ----- a `..` segment, once literal, stays

  /** Bytes that are part of no escape. */
  predicate Inert(c: Byte) {
    c != PERCENT && !IsHex(c)
  }

  lemma {:induction false} PushBefore(x: Byte, t: Text, c: Byte, r: Text)
    requires Inert(c)
    ensures Push(x, t + [c] + r) == Push(x, t) + [c] + r
    decreases |t|
  {
    var all := t + [c] + r;
    if x == PERCENT && |all| >= 2 && IsHex(all[0]) && IsHex(all[1]) {
      assert |t| >= 2 && all[0] == t[0] && all[1] == t[1];
      assert all[2..] == t[2..] + [c] + r;
      PushBefore(HexValue(t[0]) * 16 + HexValue(t[1]), t[2..], c, r);
    } else {
      assert Push(x, t) == [x] + t;
      assert [x] + all == [x] + t + [c] + r;
    }
  }

  lemma {:induction false} NormAcross(a: Text, c: Byte, b: Text)
    requires Inert(c)
    ensures Norm(a + [c] + b) == Norm(a) + [c] + Norm(b)
  {
    var s := a + [c] + b;
    if a == [] {
      assert s[1..] == b;
    } else {
      NormAcross(a[1..], c, b);
      assert s[1..] == a[1..] + [c] + b;
      PushBefore(a[0], Norm(a[1..]), c, Norm(b));
    }
  }

  lemma HasDotDotAt(a: Text, c: Byte, b: Text)
    requires c in SEPARATORS
    ensures HasDotDot(a + [c] + b) <==> HasDotDot(a) || HasDotDot(b)
  {
    SplitAt(a, c, b, SEPARATORS);
  }

  lemma NormOfDotDot()
    ensures Norm([DOT, DOT]) == [DOT, DOT]
  {
    assert [DOT, DOT][1..] == [DOT];
    assert [DOT][1..] == [];
    assert Norm([DOT]) == [DOT];
  }

  lemma {:induction false} DotDotPersists(s: Text)
    requires HasDotDot(s)
    ensures HasDotDot(Norm(s))
    decreases |s|
  {
    if i :| 0 <= i < |s| && s[i] in SEPARATORS {
      var a, b := s[..i], s[i + 1..];
      assert s == a + [s[i]] + b;
      HasDotDotAt(a, s[i], b);
      NormAcross(a, s[i], b);
      HasDotDotAt(Norm(a), s[i], Norm(b));
      if HasDotDot(a) {
        DotDotPersists(a);
      } else {
        DotDotPersists(b);
      }
    } else {
      SplitFree(s, SEPARATORS);
      assert s == [DOT, DOT];
      NormOfDotDot();
    }
  }

  lemma NormDecides(s: Text, n: nat)
    requires !HasDotDot(Norm(s))
    ensures !HasDotDot(Passes(s, n))
  {
    NormOfPasses(s, n);
    if HasDotDot(Passes(s, n)) {
      DotDotPersists(Passes(s, n));
    }
  }

  // ----- the check itself

  /** Decoding settles within the passes the check allows, and no pass ever shows a `..` segment. */
  ghost predicate StaysInside(url: Text) {
    && Passes(url, MAX_DECODE_PASSES - 1) == Passes(url, MAX_DECODE_PASSES)
    && forall n: nat :: !HasDotDot(Passes(url, n))
  }

  lemma SettledInside(url: Text, n: nat)
    requires n < MAX_DECODE_PASSES
    requires Decode(Passes(url, n)) == Passes(url, n) && !HasDotDot(Passes(url, n))
    ensures StaysInside(url)
  {
    var s := Passes(url, n);
    PassesSplit(url, n, MAX_DECODE_PASSES - 1 - n);
    PassesSplit(url, n, MAX_DECODE_PASSES - n);
    StableForEver(s, MAX_DECODE_PASSES - 1 - n);
    StableForEver(s, MAX_DECODE_PASSES - n);
    NormOfStable(s);
    NormOfPasses(url, n);
    forall m: nat
      ensures !HasDotDot(Passes(url, m))
    {
      NormDecides(url, m);
    }
  }

  lemma PassesSnoc(s: Text, n: nat)
    ensures Passes(s, n + 1) == Decode(Passes(s, n))
  {
    PassesSplit(s, n, 1);
    assert Passes(Passes(s, n), 1) == Passes(Decode(Passes(s, n)), 0);
  }

  /** The source's loop refuses exactly the URLs that do not stay inside. */
  method ClimbsOut(url: Text) returns (climbs: bool)
    ensures climbs <==> !StaysInside(url)
  {
    var current := url;
    for pass := 0 to MAX_DECODE_PASSES
      invariant current == Passes(url, pass)
      invariant pass > 0 ==> Passes(url, pass - 1) != Passes(url, pass)
    {
      if HasDotDot(current) {
        return true;
      }
      var decoded := PercentDecode(current);
      if decoded == current {
        SettledInside(url, pass);
        return false;
      }
      PassesSnoc(url, pass);
      current := decoded;
    }
    return true;
  }

  // ----- what the check is worth

  /** A chain of texts, each obtained from the one before by decoding any one of its escapes. */
  ghost predicate DecodingChain(chain: seq<Text>) {
    |chain| > 0 && forall i | 0 <= i < |chain| - 1 :: DecodesOne(chain[i], chain[i + 1])
  }

  lemma {:induction false} ChainKeepsNorm(chain: seq<Text>)
    requires DecodingChain(chain)
    ensures Norm(chain[|chain| - 1]) == Norm(chain[0])
  {
    var n := |chain|;
    if n > 1 {
      ChainKeepsNorm(chain[..n - 1]);
      var s := chain[n - 2];
      assert DecodesOne(chain[n - 2], chain[n - 2 + 1]);
      var i: nat :| EscapeAt(s, i) && chain[n - 1] == s[..i] + [Escaped(s, i)] + s[i + 3..];
      NormOfStep(s, i);
    }
  }

  /**
   * No server can be talked into climbing: whichever escapes it decodes, in whatever order and however
   * often, a URL the check let through never shows a `..` segment.
   */
  lemma NoDecodingClimbs(url: Text, chain: seq<Text>)
    requires StaysInside(url)
    requires DecodingChain(chain) && chain[0] == url
    ensures !HasDotDot(chain[|chain| - 1])
  {
    var last := chain[|chain| - 1];
    ChainKeepsNorm(chain);
    PassesReachNorm(url, |url|);
    if HasDotDot(last) {
      DotDotPersists(last);
    }
  }

  /** And nothing more is refused than has to be: a refused URL shows `..` on some pass, or needs a fifth. */
  lemma RefusalsAreEarned(url: Text)
    requires !StaysInside(url)
    ensures HasDotDot(Passes(url, |url|)) || Passes(url, 3) != Passes(url, 4)
  {
    PassesReachNorm(url, |url|);
    if !HasDotDot(Norm(url)) {
      forall n: nat
        ensures !HasDotDot(Passes(url, n))
      {
        NormDecides(url, n);
      }
    }
  }
}
