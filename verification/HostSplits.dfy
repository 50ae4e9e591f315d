/** Exactly which templates the all-splits walk really reads in all ways. */
module HostSplits {
  import opened Bytes
  import opened Strings
  import opened HostTemplate

  // ----- literals whose occurrences cannot hide one another

  /** `L` overlaps a copy of itself shifted by `k`. */
  predicate Bordered(L: string, k: nat) {
    0 < k < |L| && L[k..] == L[..|L| - k]
  }

  /**
   * A literal behind a placeholder separates cleanly: it is not empty unless the template ends there,
   * and its occurrences do not overlap, or it holds a dot, which no capture can reach over.
   */
  predicate Separates(next: Pattern) {
    && (next.lit == [] ==> !next.Slot?)
    && ('.' in next.lit || forall k | 0 < k < |next.lit| :: !Bordered(next.lit, k))
  }

  predicate Regular(p: Pattern) {
    p.Slot? ==> Separates(p.rest) && Regular(p.rest)
  }

  lemma OverlapIsBorder(s: string, L: string, i: nat, j: nat)
    requires Occurs(s, L, i) && Occurs(s, L, j) && i < j < i + |L|
    ensures Bordered(L, j - i)
  {
  }

  lemma {:induction false} UnborderedIsFound(s: string, L: string, from: nat, at: nat)
    requires L != [] && from <= at && Occurs(s, L, at)
    requires forall k | 0 < k < |L| :: !Bordered(L, k)
    ensures at in MatchIndices(s, L, from)
    decreases |s| - from
  {
    var first := FindText(s, L, from);
    if first < at {
      if at < first + |L| {
        OverlapIsBorder(s, L, first, at);
      } else {
        UnborderedIsFound(s, L, first + |L|, at);
      }
    }
  }

  lemma {:induction false} DotInPeriod(L: string, k: nat, j: nat)
    requires Bordered(L, k) && j < |L| && L[j] == '.'
    ensures '.' in L[..k]
    decreases j
  {
    if j < k {
      assert L[..k][j] == '.';
    } else {
      assert L[k..][j - k] == L[..|L| - k][j - k];
      DotInPeriod(L, k, j - k);
    }
  }

  lemma DotBeforeLater(s: string, L: string, first: nat, at: nat)
    requires '.' in L && Occurs(s, L, first) && Occurs(s, L, at) && first < at
    ensures '.' in s[..at]
  {
    var j :| 0 <= j < |L| && L[j] == '.';
    var i := j;
    if at < first + |L| {
      OverlapIsBorder(s, L, first, at);
      DotInPeriod(L, at - first, j);
      i :| 0 <= i < at - first && L[..at - first][i] == '.';
    }
    assert s[first..first + |L|][i] == s[first + i] == s[..at][first + i];
  }

  /** A dotted literal can only stand at its first occurrence: any later one has a dot before it. */
  lemma DottedIsFound(s: string, L: string, at: nat)
    requires '.' in L && Occurs(s, L, at) && '.' !in s[..at]
    ensures at in MatchIndices(s, L, 0)
  {
    if FindText(s, L, 0) < at {
      DotBeforeLater(s, L, FindText(s, L, 0), at);
    }
  }

  lemma OccursAfter(capture: string, next: string, tail: string)
    requires next <= tail
    ensures Occurs(capture + tail, next, |capture|)
    ensures (capture + tail)[..|capture|] == capture && (capture + tail)[|capture|..] == tail
  {
  }

  /** In a regular template the end of every capture is among the candidates. */
  lemma CaptureIsCandidate(next: Pattern, capture: string, tail: string)
    requires Closed(next) && Separates(next) && Good(capture) && next.lit <= tail
    requires next.Tail? ==> tail == next.lit
    ensures |capture| in Candidates(capture + tail, next.lit)
  {
    var s := capture + tail;
    OccursAfter(capture, next.lit, tail);
    if next.lit == [] {
      assert tail == [] && |s| == |capture|;
      assert Candidates(s, next.lit)[0] == |capture|;
    } else if '.' in next.lit {
      DottedIsFound(s, next.lit, |capture|);
    } else {
      UnborderedIsFound(s, next.lit, 0, |capture|);
    }
  }

  lemma RebuildStart(p: Pattern, caps: seq<string>)
    requires |caps| == Slots(p)
    ensures p.lit <= Rebuild(p, caps)
    ensures p.Tail? ==> Rebuild(p, caps) == p.lit
  {
  }

  lemma ExploredCons(p: Pattern, stem: string, caps: seq<string>, tail: string)
    requires p.Slot? && caps != [] && Good(caps[0])
    requires stem == p.lit + (caps[0] + tail)
    ensures Explored(p, stem, caps) <==>
            |caps[0]| in Candidates(caps[0] + tail, p.rest.lit) && Explored(p.rest, tail, caps[1..])
  {
  }

  lemma {:induction false} RegularIsExplored(p: Pattern, stem: string, caps: seq<string>)
    requires Regular(p) && Reads(p, stem, caps)
    ensures Explored(p, stem, caps)
  {
    if p.Slot? {
      ReadsUncons(p, stem, caps);
      var tail := Rebuild(p.rest, caps[1..]);
      RegularIsExplored(p.rest, tail, caps[1..]);
      RebuildStart(p.rest, caps[1..]);
      CaptureIsCandidate(p.rest, caps[0], tail);
      ExploredCons(p, stem, caps, tail);
    }
  }

  // ----- every other template has a split it skips

  /** The plainest captures. */
  function Plain(p: Pattern): (caps: seq<string>)
    ensures |caps| == Slots(p)
    ensures forall i | 0 <= i < |caps| :: Good(caps[i])
  {
    if p.Slot? then ["x"] + Plain(p.rest) else []
  }

  lemma HiddenByAdjacency(next: Pattern, caps: seq<string>)
    requires next.Slot? && next.lit == [] && |caps| == Slots(next) && Good(caps[0])
    ensures 1 !in Candidates("x" + Rebuild(next, caps), next.lit)
  {
  }

  /** The first of two overlapping occurrences hides the second. */
  lemma HiddenByOverlap(L: string, k: nat, tail: string)
    requires Bordered(L, k) && L <= tail
    ensures k !in MatchIndices(L[..k] + tail, L, 0)
  {
  }

  /** A way to read some host that the walk never visits. */
  lemma {:induction false} IrregularIsMissed(p: Pattern) returns (caps: seq<string>)
    requires Closed(p) && !Regular(p)
    ensures |caps| == Slots(p)
    ensures Reads(p, Rebuild(p, caps), caps) && !Explored(p, Rebuild(p, caps), caps)
  {
    var next := p.rest;
    var first := "x";
    var others := Plain(next);
    if !Separates(next) {
      PlainReads(next);
      RebuildStart(next, others);
      if next.lit == [] {
        assert others[0] == "x";
        HiddenByAdjacency(next, others);
      } else {
        var k :| 0 < k < |next.lit| && Bordered(next.lit, k);
        first := next.lit[..k];
        HiddenByOverlap(next.lit, k, Rebuild(next, others));
      }
    } else {
      others := IrregularIsMissed(next);
    }
    caps := [first] + others;
    assert caps[1..] == others;
    ReadsCons(p, first, Rebuild(next, others), others);
    ExploredCons(p, Rebuild(p, caps), caps, Rebuild(next, others));
  }

  lemma {:induction false} PlainReads(p: Pattern)
    requires Closed(p)
    ensures Reads(p, Rebuild(p, Plain(p)), Plain(p))
  {
  }

  /**
   * The walk reads a template in all the ways it declares, on every host, exactly when the template is
   * regular: a check on the template alone.
   */
  lemma AllSplitsIffRegular(p: Pattern)
    requires Closed(p)
    ensures Regular(p) <==> forall stem, caps :: Reads(p, stem, caps) ==> Explored(p, stem, caps)
  {
    if Regular(p) {
      forall stem, caps | Reads(p, stem, caps)
        ensures Explored(p, stem, caps)
      {
        RegularIsExplored(p, stem, caps);
      }
    } else {
      var caps := IrregularIsMissed(p);
      assert Reads(p, Rebuild(p, caps), caps);
    }
  }

  /** For a regular template the walk's set is the declared set. */
  lemma RegularUsers(p: Pattern, stem: string, u: string)
    requires Regular(p)
    ensures u in Walked(p, stem, None) <==>
            exists caps :: Reads(p, stem, caps) && UserOf(p, caps, None) == Some(u)
  {
    if u in Walked(p, stem, None) {
      var caps := WalkIsSound(p, stem, u);
    }
    forall caps | Reads(p, stem, caps) && UserOf(p, caps, None) == Some(u)
      ensures u in Walked(p, stem, None)
    {
      RegularIsExplored(p, stem, caps);
      ExploredIsWalked(p, stem, None, caps);
    }
  }

  /** Separators of one character, the usual kind, are always regular. */
  lemma {:induction false} SingleSeparatorsAreRegular(p: Pattern)
    requires OneCharSeparators(p)
    ensures Regular(p)
  {
    if p.Slot? {
      SingleSeparatorsAreRegular(p.rest);
    }
  }

  predicate OneCharSeparators(p: Pattern) {
    p.Slot? ==> OneCharSeparators(p.rest) && if p.rest.Slot? then |p.rest.lit| == 1 else |p.rest.lit| <= 1
  }

  // ----- a concrete misreading

  const DASHES := Slot("", "user", Slot("--", "w", Tail("")))

  lemma Spelled()
    ensures "--{w}" == "--" + ("{" + ("w" + ("}" + "")))
    ensures "{user}--{w}" == "" + ("{" + ("user" + ("}" + "--{w}")))
  {
  }

  lemma ParsesDashes()
    ensures Parse("{user}--{w}") == DASHES
  {
    Spelled();
    ParsesSlot("--", "w", "");
    ParsesSlot("", "user", "--{w}");
  }

  lemma DashReading()
    ensures Reads(DASHES, "a---b", ["a-", "b"]) && UserOf(DASHES, ["a-", "b"], None) == Some("a-")
  {
  }

  lemma DashEnds()
    ensures Candidates("a---b", "--") == [1]
  {
    var s := "a---b";
    assert s[0..2][0] == 'a';
    assert Occurs(s, "--", 1);
    assert FindText(s, "--", 0) == 1;
    assert s[3..5][1] == 'b';
    assert !Occurs(s, "--", 3) && !Occurs(s, "--", 4) && !Occurs(s, "--", 5);
    assert FindText(s, "--", 3) > 5;
    assert MatchIndices(s, "--", 3) == [];
  }

  lemma DashUser(caps: seq<string>)
    requires Explored(DASHES, "a---b", caps) && |caps| == 2
    ensures UserOf(DASHES, caps, None) == Some("a")
  {
    DashEnds();
    assert "a---b"[0..] == "a---b";
    assert caps[0] == "a---b"[..1] == "a";
    assert DASHES.rest.name == "w" != "user";
    assert UserOf(DASHES.rest, caps[1..], Some("a")) == UserOf(DASHES.rest.rest, caps[1..][1..], Some("a"));
  }

  /** `a---b` under `{user}--{w}`: `a-` with workspace `b` is a reading the walk does not find. */
  lemma DoubleDashIsMisread()
    ensures Reads(Parse("{user}--{w}"), "a---b", ["a-", "b"])
    ensures UserOf(Parse("{user}--{w}"), ["a-", "b"], None) == Some("a-")
    ensures "a-" !in Walked(Parse("{user}--{w}"), "a---b", None)
  {
    ParsesDashes();
    DashReading();
    if "a-" in Walked(DASHES, "a---b", None) {
      var caps := WalkedIsExplored(DASHES, "a---b", None, "a-");
      DashUser(caps);
    }
  }
}
