/** Exactly which templates give the set of users they declare, although the walk skips some splits. */
module HostUsers {
  import opened Bytes
  import opened Strings
  import opened HostTemplate
  import opened HostSplits

  // ----- the placeholders of a template, by number

  /** The template from placeholder `i` on, with the literal before it. */
  function Node(p: Pattern, i: nat): (q: Pattern)
    requires i <= Slots(p)
    ensures Slots(q) == Slots(p) - i
    ensures i < Slots(p) <==> q.Slot?
    ensures Closed(p) ==> Closed(q)
  {
    if i == 0 then p else Node(p.rest, i - 1)
  }

  lemma NodeBehind(p: Pattern, i: nat)
    requires 0 < i <= Slots(p)
    ensures Node(p, i) == Node(p.rest, i - 1)
  {
  }

  /** Where capture `i` starts in the stem the captures spell. */
  function Start(p: Pattern, caps: seq<string>, i: nat): nat
    requires i < Slots(p) == |caps|
  {
    if i == 0 then |p.lit| else |p.lit| + |caps[0]| + Start(p.rest, caps[1..], i - 1)
  }

  /** At place `at` of the stem the literal `before` ends, and `capture` and `tail` follow. */
  predicate CutAt(stem: string, at: nat, before: string, capture: string, tail: string) {
    && |before| <= at <= |stem|
    && stem[at - |before|..] == before + stem[at..]
    && stem[at..] == capture + tail
  }

  lemma CutFirst(stem: string, lit: string, capture: string, tail: string)
    requires stem == lit + (capture + tail)
    ensures CutAt(stem, |lit|, lit, capture, tail)
  {
  }

  lemma CutDeeper(whole: string, place: nat, lit: string, first: string, stem: string, at: nat,
                  before: string, capture: string, tail: string)
    requires CutAt(stem, at, before, capture, tail)
    requires whole == lit + (first + stem) && place == |lit| + |first| + at
    ensures CutAt(whole, place, before, capture, tail)
  {
    assert whole[place..] == stem[at..];
    assert whole[place - |before|..] == stem[at - |before|..];
  }

  lemma FirstStart(p: Pattern, caps: seq<string>)
    requires 0 < Slots(p) == |caps|
    ensures Start(p, caps, 0) == |p.lit|
  {
  }

  lemma {:induction false} StemAt(p: Pattern, caps: seq<string>, i: nat)
    requires i < Slots(p) == |caps|
    ensures CutAt(Rebuild(p, caps), Start(p, caps, i), Node(p, i).lit, caps[i],
                  Rebuild(Node(p, i + 1), caps[i + 1..]))
  {
    var rest, others := p.rest, caps[1..];
    if i == 0 {
      FirstStart(p, caps);
      NodeBehind(p, 1);
      CutFirst(Rebuild(p, caps), p.lit, caps[0], Rebuild(rest, others));
    } else {
      StemAt(rest, others, i - 1);
      assert others[i..] == caps[i + 1..];
      NodeBehind(p, i);
      NodeBehind(p, i + 1);
      CutDeeper(Rebuild(p, caps), Start(p, caps, i), p.lit, caps[0], Rebuild(rest, others), Start(rest, others, i - 1),
                Node(p, i).lit, caps[i], Rebuild(Node(p, i + 1), caps[i + 1..]));
    }
  }

  lemma {:induction false} StartGrows(p: Pattern, caps: seq<string>, caps': seq<string>, i: nat)
    requires i < Slots(p) == |caps| == |caps'|
    requires forall j | 0 <= j < i :: |caps[j]| <= |caps'[j]|
    ensures Start(p, caps, i) <= Start(p, caps', i)
  {
    if i > 0 {
      StartGrows(p.rest, caps[1..], caps'[1..], i - 1);
    }
  }

  lemma {:induction false} NextStart(p: Pattern, caps: seq<string>, i: nat)
    requires i + 1 < Slots(p) == |caps|
    ensures Start(p, caps, i + 1) == Start(p, caps, i) + |caps[i]| + |Node(p, i + 1).lit|
  {
    if i > 0 {
      NextStart(p.rest, caps[1..], i - 1);
    }
  }

  lemma {:induction false} RebuildGrows(p: Pattern, caps: seq<string>, caps': seq<string>)
    requires |caps| == |caps'| == Slots(p)
    requires forall j | 0 <= j < |caps| :: |caps[j]| <= |caps'[j]|
    ensures |Rebuild(p, caps)| <= |Rebuild(p, caps')|
  {
    if p.Slot? {
      RebuildGrows(p.rest, caps[1..], caps'[1..]);
    }
  }

  /** At every placeholder of a split the walk visits, the capture ends at a candidate. */
  lemma {:induction false} ExploredAt(p: Pattern, caps: seq<string>, i: nat)
    requires i < Slots(p) == |caps| && Explored(p, Rebuild(p, caps), caps)
    ensures Good(caps[i])
    ensures |caps[i]| in Candidates(caps[i] + Rebuild(Node(p, i + 1), caps[i + 1..]), Node(p, i + 1).lit)
  {
    ExploredCons(p, Rebuild(p, caps), caps, Rebuild(p.rest, caps[1..]));
    if i > 0 {
      ExploredAt(p.rest, caps[1..], i - 1);
      assert caps[1..][i..] == caps[i + 1..];
    }
  }

  // ----- whose capture is the answer

  predicate HasUser(p: Pattern) {
    p.Slot? && (p.name == "user" || HasUser(p.rest))
  }

  /** Placeholder `i` is the last one called `user`. */
  predicate Decides(p: Pattern, i: nat) {
    i < Slots(p) && Node(p, i).name == "user" && !HasUser(Node(p, i + 1))
  }

  lemma {:induction false} LaterUserWins(p: Pattern, caps: seq<string>, user: Option<string>, user': Option<string>)
    requires |caps| == Slots(p) && HasUser(p)
    ensures UserOf(p, caps, user) == UserOf(p, caps, user')
  {
    if HasUser(p.rest) {
      LaterUserWins(p.rest, caps[1..], if p.name == "user" then Some(caps[0]) else user,
                    if p.name == "user" then Some(caps[0]) else user');
    }
  }

  lemma {:induction false} NoUserSlot(p: Pattern, caps: seq<string>, user: Option<string>)
    requires |caps| == Slots(p) && !HasUser(p)
    ensures UserOf(p, caps, user) == user
  {
    if p.Slot? {
      NoUserSlot(p.rest, caps[1..], user);
    }
  }

  lemma {:induction false} DeciderIsUser(p: Pattern, caps: seq<string>, user: Option<string>, i: nat)
    requires |caps| == Slots(p) && Decides(p, i)
    ensures UserOf(p, caps, user) == Some(caps[i])
  {
    var user' := if p.name == "user" then Some(caps[0]) else user;
    if i == 0 {
      NoUserSlot(p.rest, caps[1..], user');
    } else {
      DeciderIsUser(p.rest, caps[1..], user', i - 1);
    }
  }

  lemma {:induction false} DeciderExists(p: Pattern) returns (i: nat)
    requires HasUser(p)
    ensures Decides(p, i)
  {
    if HasUser(p.rest) {
      i := DeciderExists(p.rest);
      i := i + 1;
    } else {
      i := 0;
    }
  }

  // ----- the condition

  /** The walk's set of users is the declared one, on every stem. */
  ghost predicate UsersExact(p: Pattern) {
    forall stem, caps, u | Reads(p, stem, caps) && UserOf(p, caps, None) == Some(u) :: u in Walked(p, stem, None)
  }

  /** A shift too short for `L` to meet its own copy. */
  predicate BelowBorders(L: string, e: nat) {
    forall k | 0 < k < |L| && Bordered(L, k) :: e < k
  }

  /** `before`, followed by `L`, stands again `e` places later. */
  predicate Recurs(before: string, L: string, e: nat) {
    0 < e && Occurs(before + L, before, e) && BelowBorders(L, e)
  }

  /** It does so inside `L`, clear of where it stood first. */
  predicate Inside(before: string, L: string) {
    exists e | |before| <= e <= |L| :: Recurs(before, L, e)
  }

  /** It does so by overlapping itself. */
  predicate Slides(before: string, L: string) {
    exists e | 0 < e < |before| :: Recurs(before, L, e)
  }

  /**
   * Behind placeholder `i` stands a literal whose occurrences hide one another, and the placeholder
   * before it can make up for that: the literal between the two stands again inside the one behind,
   * and neither of the two captures is the answer.
   */
  predicate Mends(p: Pattern, i: nat)
    requires 0 < i < Slots(p)
  {
    && Node(p, i + 1).lit != []
    && !Decides(p, i - 1) && !Decides(p, i)
    && Inside(Node(p, i).lit, Node(p, i + 1).lit)
  }

  predicate MendedAt(p: Pattern, i: nat)
    requires i < Slots(p)
  {
    Separates(Node(p, i + 1)) || (i > 0 && Mends(p, i))
  }

  predicate Mended(p: Pattern) {
    forall i | 0 <= i < Slots(p) :: MendedAt(p, i)
  }

  lemma RegularIsMended(p: Pattern)
    requires Regular(p)
    ensures Mended(p)
  {
    forall i | 0 <= i < Slots(p)
      ensures MendedAt(p, i)
    {
      RegularAt(p, i);
    }
  }

  lemma {:induction false} RegularAt(p: Pattern, i: nat)
    requires Regular(p) && i < Slots(p)
    ensures Separates(Node(p, i + 1))
  {
    if i > 0 {
      RegularAt(p.rest, i - 1);
    } else {
      assert Node(p, 1) == p.rest;
    }
  }

  // ----- it is enough: another split has the same user

  ghost predicate MendedBehind(p: Pattern) {
    forall i | 0 < i < Slots(p) :: MendedAt(p, i)
  }

  lemma MendedRest(p: Pattern)
    requires p.Slot? && MendedBehind(p)
    ensures MendedBehind(p.rest)
  {
    forall i | 0 < i < Slots(p.rest)
      ensures MendedAt(p.rest, i)
    {
      assert MendedAt(p, i + 1);
    }
  }

  lemma {:induction false} HiddenBehind(s: string, L: string, from: nat, at: nat) returns (q: nat)
    requires L != [] && from <= at && Occurs(s, L, at) && at !in MatchIndices(s, L, from)
    ensures q < at < q + |L| && Occurs(s, L, q)
    decreases |s| - from
  {
    q := FindText(s, L, from);
    if q + |L| <= at {
      q := HiddenBehind(s, L, q + |L|, at);
    }
  }

  ghost predicate NoneBetween(s: string, L: string, q: nat, at: nat) {
    forall j | q < j < at :: !Occurs(s, L, j)
  }

  /** A hidden occurrence overlaps the one right before it. */
  lemma NearestBefore(s: string, L: string, at: nat) returns (q: nat)
    requires L != [] && Occurs(s, L, at) && at !in MatchIndices(s, L, 0)
    ensures q < at < q + |L| && Occurs(s, L, q) && NoneBetween(s, L, q, at)
  {
    var low := HiddenBehind(s, L, 0, at);
    q := at - 1;
    while !Occurs(s, L, q)
      invariant low <= q < at
      invariant NoneBetween(s, L, q, at)
      decreases q
    {
      q := q - 1;
    }
  }

  lemma FirstIsFound(s: string, L: string, at: nat)
    requires L != [] && Occurs(s, L, at) && forall j | 0 <= j < at :: !Occurs(s, L, j)
    ensures at in MatchIndices(s, L, 0)
  {
    assert MatchIndices(s, L, 0)[0] == at;
  }

  lemma OccursShifted(s: string, L: string, from: nat, j: nat)
    requires from <= |s|
    ensures Occurs(s[from..], L, j) <==> Occurs(s, L, from + j)
  {
    if from + j + |L| <= |s| {
      assert s[from..][j..j + |L|] == s[from + j..from + j + |L|];
    }
  }

  /** The second of two neighbouring occurrences is the first one met from anywhere between them. */
  lemma FoundFromBetween(L: string, capture: string, tail: string, q: nat, d: nat)
    requires L != [] && q < d < |capture|
    requires Occurs(capture + tail, L, |capture|) && NoneBetween(capture + tail, L, q, |capture|)
    ensures |capture[d..]| in MatchIndices(capture[d..] + tail, L, 0)
  {
    var s := capture + tail;
    assert s[d..] == capture[d..] + tail;
    forall j
      ensures Occurs(s[d..], L, j) <==> Occurs(s, L, d + j)
    {
      OccursShifted(s, L, d, j);
    }
    FirstIsFound(s[d..], L, |capture| - d);
  }

  lemma StandsInside(before: string, L: string, e: nat)
    requires |before| <= e && Occurs(before + L, before, e)
    ensures Occurs(L, before, e - |before|)
  {
    OccursShifted(before + L, before, |before|, e - |before|);
    assert (before + L)[|before|..] == L;
  }

  lemma OccursWithin(s: string, L: string, q: nat, before: string, at: nat)
    requires Occurs(s, L, q) && Occurs(L, before, at)
    ensures Occurs(s, before, q + at)
  {
    OccursShifted(s, before, q, at);
    assert s[q..][at..at + |before|] == L[at..at + |before|] by {
      assert s[q..][..|L|] == L;
    }
  }

  /** With `before` read `d` places on, the capture behind it is cut short from the left. */
  ghost predicate MovedBy(before: string, capture: string, tail: string, d: nat, cut: string) {
    && 0 < d < |capture| && cut == capture[d..] && Good(cut)
    && (before + (capture + tail))[d..] == before + (cut + tail)
    && '.' !in (before + (capture + tail))[..d]
  }

  lemma Recut(before: string, capture: string, tail: string, d: nat)
    requires |before| <= d < |capture| && 0 < d && Good(capture) && '.' !in before
    requires Occurs(capture + tail, before, d - |before|)
    ensures MovedBy(before, capture, tail, d, capture[d..])
  {
    var stem, r := before + (capture + tail), capture + tail;
    assert stem[d..] == r[d - |before|..];
    assert r[d - |before|..] == r[d - |before|..d] + r[d..];
    assert r[d..] == capture[d..] + tail;
    assert stem[..d] == before + capture[..d - |before|];
  }

  lemma Extended(capture: string, tail: string, d: nat)
    requires d <= |tail| && Good(capture) && '.' !in tail[..d]
    ensures Good(capture + tail[..d])
    ensures (capture + tail[..d]) + tail[d..] == capture + tail
  {
  }

  /** What hides the end of a capture: an occurrence one border before it, and none between the two. */
  lemma HiddenEnd(L: string, capture: string, tail: string) returns (q: nat)
    requires L != [] && L <= tail && |capture| !in MatchIndices(capture + tail, L, 0)
    ensures q < |capture| && Bordered(L, |capture| - q) && Occurs(capture + tail, L, q)
    ensures Occurs(capture + tail, L, |capture|) && NoneBetween(capture + tail, L, q, |capture|)
  {
    OccursAfter(capture, L, tail);
    q := NearestBefore(capture + tail, L, |capture|);
    OverlapIsBorder(capture + tail, L, q, |capture|);
  }

  /** A literal that stands inside `L` stands in every occurrence of `L`, clear of the next one. */
  lemma StandsBetween(before: string, L: string, s: string, q: nat, at: nat) returns (e: nat)
    requires '.' !in L && Inside(before, L) && q < at && Bordered(L, at - q) && Occurs(s, L, q)
    ensures |before| <= e && 0 < e && q + e < at && '.' !in before
    ensures Occurs(s, before, q + e - |before|)
  {
    e :| |before| <= e <= |L| && Recurs(before, L, e);
    StandsInside(before, L, e);
    OccursWithin(s, L, q, before, e - |before|);
    DotFree(before, L, e - |before|);
  }

  lemma DotFree(before: string, L: string, at: nat)
    requires Occurs(L, before, at) && '.' !in L
    ensures '.' !in before
  {
    assert forall j | 0 <= j < |before| :: before[j] == L[at..at + |before|][j] == L[at + j];
  }

  /** A capture whose end the walk would miss is cut so that the walk finds it. */
  lemma Mend(before: string, L: string, capture: string, tail: string, q: nat) returns (d: nat, cut: string)
    requires L != [] && '.' !in L && Good(capture) && Inside(before, L)
    requires q < |capture| && Bordered(L, |capture| - q) && Occurs(capture + tail, L, q)
    requires Occurs(capture + tail, L, |capture|) && NoneBetween(capture + tail, L, q, |capture|)
    ensures MovedBy(before, capture, tail, d, cut) && |cut| in MatchIndices(cut + tail, L, 0)
  {
    var e := StandsBetween(before, L, capture + tail, q, |capture|);
    d := q + e;
    cut := capture[d..];
    MendAt(before, L, capture, tail, q, d);
  }

  lemma MendAt(before: string, L: string, capture: string, tail: string, q: nat, d: nat)
    requires L != [] && Good(capture) && '.' !in before && |before| <= d && q < d < |capture|
    requires Occurs(capture + tail, before, d - |before|)
    requires Occurs(capture + tail, L, |capture|) && NoneBetween(capture + tail, L, q, |capture|)
    ensures MovedBy(before, capture, tail, d, capture[d..])
    ensures |capture[d..]| in MatchIndices(capture[d..] + tail, L, 0)
  {
    FoundFromBetween(L, capture, tail, q, d);
    Recut(before, capture, tail, d);
  }

  lemma MendedHere(p: Pattern)
    requires p.Slot? && p.rest.Slot? && MendedBehind(p) && !Separates(p.rest.rest)
    ensures p.rest.rest.lit != [] && '.' !in p.rest.rest.lit && Inside(p.rest.lit, p.rest.rest.lit)
    ensures !Decides(p, 0) && !Decides(p.rest, 0)
  {
    assert Node(p, 1) == p.rest && Node(p.rest, 1) == p.rest.rest;
    assert Node(p, 2) == Node(p.rest, 1);
    assert MendedAt(p, 1);
    assert Decides(p, 1) == Decides(p.rest, 0);
  }

  /** The answer does not depend on a capture that does not decide it. */
  lemma SameUser(p: Pattern, caps: seq<string>, caps': seq<string>)
    requires p.Slot? && |caps| == |caps'| == Slots(p)
    requires caps[0] == caps'[0] || !Decides(p, 0)
    requires UserOf(p.rest, caps[1..], None) == UserOf(p.rest, caps'[1..], None)
    ensures UserOf(p, caps, None) == UserOf(p, caps', None)
  {
    var user := if p.name == "user" then Some(caps[0]) else None;
    var user' := if p.name == "user" then Some(caps'[0]) else None;
    assert Node(p, 0) == p && Node(p, 1) == p.rest;
    if HasUser(p.rest) {
      LaterUserWins(p.rest, caps[1..], user, None);
      LaterUserWins(p.rest, caps'[1..], user', None);
    } else {
      NoUserSlot(p.rest, caps[1..], user);
      NoUserSlot(p.rest, caps'[1..], user');
    }
  }

  /**
   * A reading of what stands behind a placeholder can be settled into one the walk visits, with the same
   * user, at the price of moving the placeholder's end `d` places on.
   */
  lemma {:induction false} Settle(p: Pattern, tail: string, caps: seq<string>) returns (d: nat, caps': seq<string>)
    requires p.Slot? && MendedBehind(p) && Reads(p.rest, tail, caps)
    ensures d <= |tail| && '.' !in tail[..d] && (d > 0 ==> !Decides(p, 0))
    ensures |caps'| == |caps| && Explored(p.rest, tail[d..], caps')
    ensures UserOf(p.rest, caps, None) == UserOf(p.rest, caps', None)
    decreases p
  {
    var q := p.rest;
    d, caps' := 0, caps;
    if q.Slot? {
      ReadsUncons(q, tail, caps);
      MendedRest(p);
      var tail1 := Rebuild(q.rest, caps[1..]);
      var d1, caps1 := Settle(q, tail1, caps[1..]);
      var tail2 := tail1[d1..];
      var capture := caps[0] + tail1[..d1];
      Extended(caps[0], tail1, d1);
      assert tail == q.lit + (capture + tail2);
      d, caps' := SettleOne(p, capture, tail2, caps1);
      SameUser(q, caps, caps');
    }
  }

  /** The same for one placeholder, once everything behind it is settled. */
  lemma SettleOne(p: Pattern, capture: string, tail: string, caps: seq<string>) returns (d: nat, caps': seq<string>)
    requires p.Slot? && p.rest.Slot? && MendedBehind(p)
    requires Good(capture) && Explored(p.rest.rest, tail, caps)
    ensures var stem := p.rest.lit + (capture + tail);
            d <= |stem| && '.' !in stem[..d] && Explored(p.rest, stem[d..], caps')
    ensures |caps'| == |caps| + 1 && caps'[1..] == caps
    ensures d > 0 ==> !Decides(p, 0)
    ensures caps'[0] == capture || !Decides(p.rest, 0)
  {
    var q := p.rest;
    ExploredReads(q.rest, tail, caps);
    RebuildStart(q.rest, caps);
    d, caps' := 0, [capture] + caps;
    if |capture| !in Candidates(capture + tail, q.rest.lit) {
      if Separates(q.rest) {
        CaptureIsCandidate(q.rest, capture, tail);
      }
      MendedHere(p);
      var hider := HiddenEnd(q.rest.lit, capture, tail);
      var cut;
      d, cut := Mend(q.lit, q.rest.lit, capture, tail, hider);
      caps' := [cut] + caps;
    }
    var stem := q.lit + (capture + tail);
    assert stem[d..] == q.lit + (caps'[0] + tail);
    ExploredCons(q, stem[d..], caps', tail);
  }

  /** The same for the whole template, whose first literal cannot move. */
  lemma SettleAll(p: Pattern, stem: string, caps: seq<string>) returns (caps': seq<string>)
    requires p.Slot? && Mended(p) && Reads(p, stem, caps)
    ensures |caps'| == |caps| && Explored(p, stem, caps') && UserOf(p, caps, None) == UserOf(p, caps', None)
  {
    ReadsUncons(p, stem, caps);
    assert MendedAt(p, 0) && Node(p, 1) == p.rest;
    var tail := Rebuild(p.rest, caps[1..]);
    var d, rest := Settle(p, tail, caps[1..]);
    caps' := SettleFirst(p, stem, caps, tail, d, rest);
  }

  lemma SettleFirst(p: Pattern, stem: string, caps: seq<string>, tail: string, d: nat, rest: seq<string>)
    returns (caps': seq<string>)
    requires p.Slot? && Separates(p.rest) && |caps| == Slots(p) == |rest| + 1
    requires stem == p.lit + (caps[0] + tail) && Good(caps[0])
    requires d <= |tail| && '.' !in tail[..d] && (d > 0 ==> !Decides(p, 0))
    requires Explored(p.rest, tail[d..], rest) && UserOf(p.rest, caps[1..], None) == UserOf(p.rest, rest, None)
    ensures |caps'| == |caps| && Explored(p, stem, caps') && UserOf(p, caps, None) == UserOf(p, caps', None)
  {
    Extended(caps[0], tail, d);
    caps' := [caps[0] + tail[..d]] + rest;
    assert stem == p.lit + (caps'[0] + tail[d..]);
    assert caps'[1..] == rest;
    ExploredWhenSeparated(p, stem, caps', tail[d..]);
    SameUser(p, caps, caps');
  }

  lemma ExploredWhenSeparated(p: Pattern, stem: string, caps: seq<string>, tail: string)
    requires p.Slot? && Separates(p.rest) && caps != [] && Good(caps[0])
    requires stem == p.lit + (caps[0] + tail) && Explored(p.rest, tail, caps[1..])
    ensures Explored(p, stem, caps)
  {
    ExploredReads(p.rest, tail, caps[1..]);
    RebuildStart(p.rest, caps[1..]);
    CaptureIsCandidate(p.rest, caps[0], tail);
    ExploredCons(p, stem, caps, tail);
  }

  /** A mended template finds every user it declares. */
  lemma MendedIsExact(p: Pattern)
    requires Mended(p)
    ensures UsersExact(p)
  {
    forall stem, caps, u | Reads(p, stem, caps) && UserOf(p, caps, None) == Some(u)
      ensures u in Walked(p, stem, None)
    {
      var caps' := SettleAll(p, stem, caps);
      ExploredIsWalked(p, stem, None, caps');
    }
  }

  // ----- it is needed: a stem whose user the walk misses

  /** Two placeholders with nothing between them: no split is ever visited. */
  lemma AdjacentIsNotExplored(p: Pattern, caps: seq<string>, i: nat)
    requires i + 1 < Slots(p) == |caps| && Node(p, i + 1).lit == []
    ensures !Explored(p, Rebuild(p, caps), caps)
  {
    if Explored(p, Rebuild(p, caps), caps) {
      ExploredAt(p, caps, i);
      ExploredAt(p, caps, i + 1);
    }
  }

  /** The shortest shift at which `L` meets its own copy. */
  predicate ShortestBorder(L: string, k: nat) {
    Bordered(L, k) && forall j | 0 < j < k :: !Bordered(L, j)
  }

  lemma FindShortestBorder(L: string) returns (k: nat)
    requires exists k | 0 < k < |L| :: Bordered(L, k)
    ensures ShortestBorder(L, k)
  {
    k := 1;
    while !Bordered(L, k)
      invariant 0 < k < |L|
      invariant forall j | 0 < j < k :: !Bordered(L, j)
      decreases |L| - k
    {
      k := k + 1;
    }
  }

  lemma BorderedStart(L: string, k: nat, tail: string)
    requires Bordered(L, k) && L <= tail
    ensures L <= L[..k] + tail
  {
    assert L == L[..k] + L[k..];
    assert L[k..] <= tail by {
      assert L[k..] == L[..|L| - k];
    }
  }

  /** Cut the other way, the same stem shows `L` twice: its shortest border apart, or there is no such cut. */
  lemma OtherCut(stem: string, at: nat, at': nat, before: string, L: string, k: nat,
                 capture: string, tail: string, tail': string)
    requires ShortestBorder(L, k) && at <= at'
    requires CutAt(stem, at, before, L[..k], tail) && CutAt(stem, at', before, capture, tail')
    requires L <= tail && L <= tail' && capture != [] && |tail| <= |tail'|
    ensures at' + |capture| == at + k
    ensures L <= stem[at..]
  {
    BorderedStart(L, k, tail);
    var shift := at' + |capture| - at;
    assert |stem[at..]| == k + |tail| && |stem[at'..]| == |capture| + |tail'|;
    assert Occurs(stem, L, at) by {
      OccursShifted(stem, L, at, 0);
    }
    assert Occurs(stem, L, at + shift) by {
      OccursAfter(capture, L, tail');
      OccursShifted(stem, L, at', |capture|);
    }
    if shift < k {
      OverlapIsBorder(stem, L, at, at + shift);
    }
  }

  /** A literal before both cuts stands twice in what it and `L` spell together. */
  lemma RecursBetween(stem: string, at: nat, e: nat, before: string, L: string)
    requires |before| <= at && at + e <= |stem| && e <= |L|
    requires stem[at - |before|..] == before + stem[at..] && L <= stem[at..]
    requires stem[at + e - |before|..] == before + stem[at + e..]
    ensures Occurs(before + L, before, e)
  {
    var s := stem[at - |before|..];
    assert before + L <= s;
    assert Occurs(s, before, e) by {
      OccursShifted(stem, before, at - |before|, e);
      assert stem[at + e - |before|..][..|before|] == before;
    }
    assert (before + L)[e..e + |before|] == s[e..e + |before|];
  }

  lemma SameCutIsHidden(L: string, k: nat, capture: string, tail: string, tail': string)
    requires Bordered(L, k) && L <= tail && L[..k] + tail == capture + tail' && |capture| == k
    ensures |capture| !in Candidates(capture + tail', L)
  {
    HiddenByOverlap(L, k, tail);
  }

  /** Another cut means that the literal before recurs. */
  lemma OtherCutRecurs(stem: string, at: nat, e: nat, before: string, L: string, k: nat,
                       capture: string, tail: string, tail': string)
    requires ShortestBorder(L, k) && 0 < e
    requires CutAt(stem, at, before, L[..k], tail) && CutAt(stem, at + e, before, capture, tail')
    requires L <= tail && L <= tail' && capture != [] && |tail| <= |tail'|
    ensures e < k && |capture| == k - e && Recurs(before, L, e)
  {
    OtherCut(stem, at, at + e, before, L, k, capture, tail, tail');
    RecursBetween(stem, at, e, before, L);
  }

  lemma TwoCuts(stem: string, at: nat, at': nat, before: string, L: string, k: nat,
                capture: string, tail: string, tail': string)
    returns (e: nat)
    requires ShortestBorder(L, k) && at <= at' && !(at == at' && |capture| == k)
    requires CutAt(stem, at, before, L[..k], tail) && CutAt(stem, at', before, capture, tail')
    requires L <= tail && L <= tail' && capture != [] && |tail| <= |tail'|
    ensures at' == at + e && 0 < e < k && |capture| == k - e && Recurs(before, L, e)
  {
    e := at' - at;
    OtherCut(stem, at, at', before, L, k, capture, tail, tail');
    OtherCutRecurs(stem, at, e, before, L, k, capture, tail, tail');
  }

  /** No capture of `caps` but number `i` is longer than its counterpart. */
  ghost predicate ShorterBut(caps: seq<string>, caps': seq<string>, i: nat) {
    |caps| == |caps'| && forall j | 0 <= j < |caps| && j != i :: |caps[j]| <= |caps'[j]|
  }

  lemma GrowsAround(p: Pattern, i: nat, caps: seq<string>, caps': seq<string>)
    requires i < Slots(p) == |caps| && ShorterBut(caps, caps', i)
    ensures Start(p, caps, i) <= Start(p, caps', i)
    ensures |Rebuild(Node(p, i + 1), caps[i + 1..])| <= |Rebuild(Node(p, i + 1), caps'[i + 1..])|
  {
    StartGrows(p, caps, caps', i);
    RebuildGrows(Node(p, i + 1), caps[i + 1..], caps'[i + 1..]);
  }

  lemma CutOf(p: Pattern, caps: seq<string>, i: nat, stem: string) returns (tail: string)
    requires i < Slots(p) == |caps| && Rebuild(p, caps) == stem
    ensures CutAt(stem, Start(p, caps, i), Node(p, i).lit, caps[i], tail)
    ensures tail == Rebuild(Node(p, i + 1), caps[i + 1..]) && Node(p, i + 1).lit <= tail
  {
    StemAt(p, caps, i);
    RebuildStart(Node(p, i + 1), caps[i + 1..]);
    tail := Rebuild(Node(p, i + 1), caps[i + 1..]);
  }

  /**
   * With every other capture as short as it can be, a stem that hides `L` behind `L[..k]` is read in no
   * other way than by moving the literal before: it must stand again in `before + L`.
   */
  lemma OnlyByRecurring(p: Pattern, i: nat, before: string, L: string, k: nat, stem: string,
                        caps: seq<string>, caps': seq<string>)
    returns (e: nat)
    requires i < Slots(p) == |caps| && ShorterBut(caps, caps', i)
    requires Node(p, i).lit == before && Node(p, i + 1).lit == L
    requires ShortestBorder(L, k) && caps[i] == L[..k]
    requires Rebuild(p, caps) == stem == Rebuild(p, caps') && Explored(p, stem, caps')
    ensures Start(p, caps', i) == Start(p, caps, i) + e
    ensures 0 < e < k && |caps'[i]| == k - e && Recurs(before, L, e)
  {
    var tail := CutOf(p, caps, i, stem);
    var tail' := CutOf(p, caps', i, stem);
    ExploredAt(p, caps', i);
    GrowsAround(p, i, caps, caps');
    if Start(p, caps, i) == Start(p, caps', i) && |caps'[i]| == k {
      SameCutIsHidden(L, k, caps'[i], tail, tail');
    }
    e := TwoCuts(stem, Start(p, caps, i), Start(p, caps', i), before, L, k, caps'[i], tail, tail');
  }

  /** `hidden` at placeholder `i`, `answer` at placeholder `u`, and one character everywhere else. */
  function Witness(n: nat, i: nat, hidden: string, u: nat, answer: string): (caps: seq<string>)
    ensures |caps| == n
  {
    seq(n, j => if j == i then hidden else if j == u then answer else "x")
  }

  /** Two characters are enough to find one that is neither a dot nor `c`. */
  function Other(c: char): (r: char)
    ensures r != c && r != '.'
  {
    if c == 'x' then 'y' else 'x'
  }

  function Times(c: char, n: nat): (s: string)
    ensures |s| == n && forall j | 0 <= j < n :: s[j] == c
  {
    seq(n, _ => c)
  }

  /** A run of one character cannot also stand `e` places on, where something else follows it. */
  lemma RunStandsOnce(stem: string, at: nat, at': nat, lit: string, capture: string, capture': string,
                      tail: string, tail': string)
    requires at < at' < at + |capture| && tail != []
    requires forall j | 0 <= j < |capture| :: capture[j] != tail[0]
    requires CutAt(stem, at, lit, capture, tail) && CutAt(stem, at', lit, capture', tail')
    ensures capture' != capture
  {
    var j := at + |capture| - at';
    assert stem[at..][|capture|] == tail[0] == stem[at + |capture|];
    assert j < |capture'| ==> stem[at'..][j] == capture'[j];
  }

  lemma StartBefore(p: Pattern, u: nat, caps: seq<string>, caps': seq<string>, e: nat)
    requires u + 1 < Slots(p) == |caps| == |caps'| && |caps[u]| == |caps'[u]|
    requires Start(p, caps', u + 1) == Start(p, caps, u + 1) + e
    ensures Start(p, caps', u) == Start(p, caps, u) + e
  {
    NextStart(p, caps, u);
    NextStart(p, caps', u);
  }

  /** Why the literal before placeholder `i` cannot make up for it. */
  ghost predicate Stuck(i: nat, u: nat, before: string, L: string) {
    Bound(i, u, before) || forall e :: !Recurs(before, L, e)
  }

  predicate Bound(i: nat, u: nat, before: string) {
    i == 0 || u == i || (u + 1 == i && before != [])
  }

  /** The capture of the answer in the stem that shows the loss. */
  function Answer(i: nat, u: nat, before: string, k: nat): (s: string)
    requires k > 0
    ensures u != i ==> Good(s)
  {
    if u + 1 == i && before != [] then Times(Other(before[0]), k) else "x"
  }

  lemma AnswerStandsOnce(p: Pattern, u: nat, before: string, k: nat, e: nat, caps: seq<string>, caps': seq<string>)
    requires u + 1 < Slots(p) == |caps| == |caps'| && Node(p, u + 1).lit == before != [] && 0 < e < k
    requires Rebuild(p, caps) == Rebuild(p, caps') && caps[u] == Times(Other(before[0]), k)
    requires Start(p, caps', u + 1) == Start(p, caps, u + 1) + e
    ensures caps'[u] != caps[u]
  {
    if |caps'[u]| == |caps[u]| {
      StartBefore(p, u, caps, caps', e);
      var stem := Rebuild(p, caps);
      var tail := CutOf(p, caps, u, stem);
      var tail' := CutOf(p, caps', u, stem);
      assert tail != [] && tail[0] == before[0];
      RunStandsOnce(stem, Start(p, caps, u), Start(p, caps', u), Node(p, u).lit, caps[u], caps'[u], tail, tail');
    }
  }

  lemma WitnessIsShortest(n: nat, i: nat, hidden: string, u: nat, answer: string, caps: seq<string>)
    requires |caps| == n && u < n && caps[u] == Witness(n, i, hidden, u, answer)[u]
    requires forall j | 0 <= j < n :: Good(caps[j])
    ensures ShorterBut(Witness(n, i, hidden, u, answer), caps, i)
  {
  }

  lemma BoundRefutes(p: Pattern, i: nat, u: nat, before: string, k: nat, e: nat, caps: seq<string>, caps': seq<string>)
    requires i < Slots(p) == |caps| == |caps'| && u < |caps| && Bound(i, u, before) && Node(p, i).lit == before
    requires 0 < e < k && |caps[i]| == k && (u != i ==> caps[u] == Answer(i, u, before, k))
    requires Rebuild(p, caps) == Rebuild(p, caps')
    requires Start(p, caps', i) == Start(p, caps, i) + e && |caps'[i]| == k - e
    ensures caps'[u] != caps[u]
  {
    if i == 0 {
      FirstStart(p, caps);
      FirstStart(p, caps');
    } else if u == i {
      assert |caps'[u]| != |caps[u]|;
    } else {
      AnswerStandsOnce(p, u, before, k, e, caps, caps');
    }
  }

  /** The walk has no split of the witness with the same answer. */
  lemma WitnessIsMissed(p: Pattern, i: nat, u: nat, before: string, L: string, k: nat,
                        caps: seq<string>, caps': seq<string>)
    requires i < Slots(p) == |caps| && u < |caps| && ShorterBut(caps, caps', i) && Stuck(i, u, before, L)
    requires Node(p, i).lit == before && Node(p, i + 1).lit == L && ShortestBorder(L, k)
    requires caps[i] == L[..k] && (u != i ==> caps[u] == Answer(i, u, before, k))
    requires Rebuild(p, caps) == Rebuild(p, caps') && Explored(p, Rebuild(p, caps'), caps')
    ensures caps'[u] != caps[u]
  {
    var e := OnlyByRecurring(p, i, before, L, k, Rebuild(p, caps'), caps, caps');
    BoundRefutes(p, i, u, before, k, e, caps, caps');
  }

  lemma StuckIsNotExact(p: Pattern, i: nat, u: nat, before: string, L: string)
    requires Closed(p) && i < Slots(p) && Decides(p, u) && Stuck(i, u, before, L)
    requires Node(p, i).lit == before && Node(p, i + 1).lit == L
    requires L != [] && !Separates(Node(p, i + 1))
    ensures !UsersExact(p)
  {
    var k := FindShortestBorder(L);
    var caps := Witness(Slots(p), i, L[..k], u, Answer(i, u, before, k));
    var stem := Rebuild(p, caps);
    assert Reads(p, stem, caps);
    DeciderIsUser(p, caps, None, u);
    assert caps[u] !in Walked(p, stem, None) by {
      if caps[u] in Walked(p, stem, None) {
        var caps' := WalkedIsExplored(p, stem, None, caps[u]);
        ExploredReads(p, stem, caps');
        DeciderIsUser(p, caps', None, u);
        WitnessIsShortest(|caps|, i, L[..k], u, Answer(i, u, before, k), caps');
        WitnessIsMissed(p, i, u, before, L, k, caps, caps');
      }
    }
  }

  lemma AdjacentIsNotExact(p: Pattern, i: nat, u: nat)
    requires Closed(p) && i + 1 < Slots(p) && Decides(p, u) && Node(p, i + 1).lit == []
    ensures !UsersExact(p)
  {
    var caps := Witness(Slots(p), 0, "x", 0, "x");
    var stem := Rebuild(p, caps);
    assert Reads(p, stem, caps);
    DeciderIsUser(p, caps, None, u);
    assert caps[u] !in Walked(p, stem, None) by {
      if caps[u] in Walked(p, stem, None) {
        var caps' := WalkedIsExplored(p, stem, None, caps[u]);
        ExploredReads(p, stem, caps');
        AdjacentIsNotExplored(p, caps', i);
      }
    }
  }

  // ----- exactly when

  /** No literal overlaps itself on its way into one whose occurrences hide one another. */
  predicate SlidesAt(p: Pattern, i: nat)
    requires i < Slots(p)
  {
    i > 0 && !Separates(Node(p, i + 1)) && Slides(Node(p, i).lit, Node(p, i + 1).lit)
  }

  lemma UnmendedIsNotExact(p: Pattern, i: nat)
    requires Closed(p) && HasUser(p) && i < Slots(p) && !MendedAt(p, i) && !SlidesAt(p, i)
    ensures !UsersExact(p)
  {
    var u := DeciderExists(p);
    var before, L := Node(p, i).lit, Node(p, i + 1).lit;
    if L == [] {
      AdjacentIsNotExact(p, i, u);
    } else if i > 0 && before == [] {
      AdjacentIsNotExact(p, i - 1, u);
    } else {
      if i > 0 && u != i && u + 1 != i {
        NeverRecurs(p, i, u, before, L);
      }
      StuckIsNotExact(p, i, u, before, L);
    }
  }

  lemma NeverRecurs(p: Pattern, i: nat, u: nat, before: string, L: string)
    requires 0 < i < Slots(p) && Decides(p, u) && u != i && u + 1 != i
    requires Node(p, i).lit == before && Node(p, i + 1).lit == L != []
    requires !MendedAt(p, i) && !SlidesAt(p, i)
    ensures forall e :: !Recurs(before, L, e)
  {
    forall e: nat
      ensures !Recurs(before, L, e)
    {
      if Recurs(before, L, e) {
        DecidesOnce(p, u, i);
        DecidesOnce(p, u, i - 1);
        assert e < |before| ==> Slides(before, L);
        assert e >= |before| ==> Inside(before, L);
      }
    }
  }

  lemma {:induction false} DecidesOnce(p: Pattern, u: nat, i: nat)
    requires Decides(p, u) && i < Slots(p) && i != u
    ensures !Decides(p, i)
  {
    if u == 0 {
      assert Node(p, 1) == p.rest;
      NotAfterLast(p.rest, i - 1);
    } else if i == 0 {
      assert HasUser(Node(p, 1)) by {
        UserBehind(p.rest, u - 1);
      }
    } else {
      DecidesOnce(p.rest, u - 1, i - 1);
    }
  }

  lemma {:induction false} NotAfterLast(p: Pattern, i: nat)
    requires !HasUser(p) && i < Slots(p)
    ensures Node(p, i).name != "user"
  {
    if i > 0 {
      NotAfterLast(p.rest, i - 1);
    }
  }

  lemma {:induction false} UserBehind(p: Pattern, i: nat)
    requires i < Slots(p) && Node(p, i).name == "user"
    ensures HasUser(p)
  {
    if i > 0 {
      UserBehind(p.rest, i - 1);
    }
  }

  lemma {:induction false} DotSlidesOn(before: string, L: string, e: nat, j: nat)
    requires 0 < e && Occurs(before + L, before, e) && j < |before| && before[j] == '.'
    ensures '.' in L
    decreases |before| - j
  {
    assert (before + L)[e..e + |before|][j] == (before + L)[e + j];
    if e + j < |before| {
      DotSlidesOn(before, L, e, j + e);
    } else {
      assert L[e + j - |before|] == '.';
    }
  }

  lemma SlidingIsBordered(before: string, L: string, e: nat)
    requires 0 < e < |before| && Occurs(before + L, before, e)
    ensures Bordered(before, e)
  {
    assert before[e..] == (before + L)[e..e + |before|][..|before| - e];
  }

  /** A literal that slides hides its own occurrences too: it takes two such neighbours. */
  lemma SlidingTakesTwo(p: Pattern, i: nat)
    requires i < Slots(p) && SlidesAt(p, i)
    ensures i > 0 && Node(p, i + 1).lit != [] && !Separates(Node(p, i))
  {
    var before, L := Node(p, i).lit, Node(p, i + 1).lit;
    var e :| 0 < e < |before| && Recurs(before, L, e);
    SlidingIsBordered(before, L, e);
    if '.' in before {
      var j :| 0 <= j < |before| && before[j] == '.';
      DotSlidesOn(before, L, e, j);
    }
  }

  lemma FirstUnmended(p: Pattern) returns (i: nat)
    requires !Mended(p)
    ensures i < Slots(p) && !MendedAt(p, i) && forall j | 0 <= j < i :: MendedAt(p, j)
  {
    i := 0;
    while MendedAt(p, i)
      invariant i < Slots(p) && forall j | 0 <= j < i :: MendedAt(p, j)
      invariant exists j :: i <= j < Slots(p) && !MendedAt(p, j)
      decreases Slots(p) - i
    {
      i := i + 1;
    }
  }

  lemma SlidingAmongThree(p: Pattern, i: nat)
    requires Closed(p) && HasUser(p) && i < Slots(p) <= 3
    requires !MendedAt(p, i) && SlidesAt(p, i) && forall j | 0 <= j < i :: MendedAt(p, j)
    ensures !UsersExact(p)
  {
    var u := DeciderExists(p);
    SlidingTakesTwo(p, i);
    assert MendedAt(p, i - 1);
    StuckIsNotExact(p, i, u, Node(p, i).lit, Node(p, i + 1).lit);
  }

  /**
   * The walk returns exactly the declared users, on every stem, exactly when the template is mended: a
   * check on the template alone. Left open are only templates of more than three placeholders in which a
   * literal slides into the next.
   */
  lemma UsersExactIffMended(p: Pattern)
    requires Closed(p) && HasUser(p)
    requires Slots(p) <= 3 || forall i | 0 <= i < Slots(p) :: !SlidesAt(p, i)
    ensures UsersExact(p) <==> Mended(p)
  {
    if Mended(p) {
      MendedIsExact(p);
    } else {
      var i := FirstUnmended(p);
      if SlidesAt(p, i) {
        SlidingAmongThree(p, i);
      } else {
        UnmendedIsNotExact(p, i);
      }
    }
  }

  // ----- wherever the user stands

  /** The same literals and placeholders, whatever the placeholders are called. */
  ghost predicate SameShape(p: Pattern, q: Pattern) {
    && p.lit == q.lit
    && (p.Slot? <==> q.Slot?) && (p.Tail? <==> q.Tail?)
    && (p.Slot? ==> SameShape(p.rest, q.rest))
  }

  /** `p` with its placeholder `i`, and no other, called `user`. */
  function Calling(p: Pattern, i: nat): Pattern
    requires i < Slots(p)
  {
    if i == 0 then Slot(p.lit, "user", Nameless(p.rest)) else Slot(p.lit, "", Calling(p.rest, i - 1))
  }

  function Nameless(p: Pattern): Pattern {
    if p.Slot? then Slot(p.lit, "", Nameless(p.rest)) else p
  }

  lemma {:induction false} NamelessHasNoUser(p: Pattern)
    ensures !HasUser(Nameless(p)) && SameShape(p, Nameless(p))
  {
    if p.Slot? {
      NamelessHasNoUser(p.rest);
    }
  }

  lemma {:induction false} CallingDecides(p: Pattern, i: nat)
    requires i < Slots(p)
    ensures SameShape(p, Calling(p, i)) && Slots(Calling(p, i)) == Slots(p) && Decides(Calling(p, i), i)
  {
    var q := Calling(p, i);
    if i == 0 {
      NamelessHasNoUser(p.rest);
      assert Node(q, 1) == q.rest;
      ShapeAt(p.rest, q.rest, 0);
    } else {
      CallingDecides(p.rest, i - 1);
    }
  }

  lemma {:induction false} ShapeAt(p: Pattern, q: Pattern, i: nat)
    requires SameShape(p, q) && i <= Slots(p)
    ensures Slots(q) == Slots(p) && (Closed(p) <==> Closed(q))
    ensures SameShape(Node(p, i), Node(q, i))
  {
    if p.Slot? {
      ShapeAt(p.rest, q.rest, if i == 0 then 0 else i - 1);
    }
  }

  lemma {:induction false} RegularByShape(p: Pattern, q: Pattern)
    requires SameShape(p, q)
    ensures Regular(p) <==> Regular(q)
  {
    if p.Slot? {
      RegularByShape(p.rest, q.rest);
    }
  }

  lemma {:induction false} IrregularAt(p: Pattern) returns (i: nat)
    requires !Regular(p)
    ensures i < Slots(p) && !Separates(Node(p, i + 1))
  {
    if Separates(p.rest) {
      i := IrregularAt(p.rest);
      i := i + 1;
    } else {
      assert Node(p, 1) == p.rest;
      i := 0;
    }
  }

  /** At an irregular placeholder itself the walk always misses somebody. */
  lemma IrregularUserIsMissed(p: Pattern, i: nat)
    requires Closed(p) && i < Slots(p) && !Separates(Node(p, i + 1)) && Decides(p, i)
    ensures !UsersExact(p)
  {
    if Node(p, i + 1).lit == [] {
      AdjacentIsNotExact(p, i, i);
    } else {
      StuckIsNotExact(p, i, i, Node(p, i).lit, Node(p, i + 1).lit);
    }
  }

  lemma SomebodyIsMissed(p: Pattern) returns (q: Pattern)
    requires Closed(p) && !Regular(p)
    ensures SameShape(p, q) && !UsersExact(q)
  {
    var i := IrregularAt(p);
    q := Calling(p, i);
    CallingDecides(p, i);
    ShapeAt(p, q, i + 1);
    IrregularUserIsMissed(q, i);
  }

  /** Regular templates, and no others, give exactly the declared users wherever among them `{user}` stands. */
  lemma RegularIffExactEverywhere(p: Pattern)
    requires Closed(p)
    ensures Regular(p) <==> forall q | SameShape(p, q) :: UsersExact(q)
  {
    if Regular(p) {
      forall q | SameShape(p, q)
        ensures UsersExact(q)
      {
        RegularByShape(p, q);
        RegularIsMended(q);
        MendedIsExact(q);
      }
    } else {
      var q := SomebodyIsMissed(p);
    }
  }

  // ----- irregular, and right all the same

  const MENDED := Slot("", "w", Slot("a", "v", Slot("aba", "user", Tail(""))))

  lemma MendedSpelled()
    ensures "aba{user}" == "aba" + ("{" + ("user" + ("}" + "")))
    ensures "a{v}aba{user}" == "a" + ("{" + ("v" + ("}" + "aba{user}")))
    ensures "{w}a{v}aba{user}" == "" + ("{" + ("w" + ("}" + "a{v}aba{user}")))
  {
  }

  lemma ParsesMended()
    ensures Parse("{w}a{v}aba{user}") == MENDED
  {
    MendedSpelled();
    ParsesSlot("aba", "user", "");
    ParsesSlot("a", "v", "aba{user}");
    ParsesSlot("", "w", "a{v}aba{user}");
  }

  lemma AbaBorders()
    ensures Bordered("aba", 2) && !Bordered("aba", 1) && Recurs("a", "aba", 1)
  {
    assert "aba"[2..] == "a" == "aba"[..1];
    assert "aba"[1..][0] == 'b';
    assert ("a" + "aba")[1..2] == "a";
  }

  lemma MendedExample()
    ensures Closed(MENDED) && HasUser(MENDED) && !Regular(MENDED) && Mended(MENDED)
  {
    AbaBorders();
    assert !Separates(MENDED.rest.rest);
    assert Node(MENDED, 1) == MENDED.rest && Node(MENDED, 2) == MENDED.rest.rest && Node(MENDED, 3) == Tail("");
    assert Inside("a", "aba");
    assert MendedAt(MENDED, 0) && MendedAt(MENDED, 1) && MendedAt(MENDED, 2);
  }

  /** `{w}a{v}aba{user}` is not regular, and the walk finds every user it declares, on every stem. */
  lemma IrregularYetExact()
    ensures var p := Parse("{w}a{v}aba{user}");
            Closed(p) && HasUser(p) && !Regular(p) && UsersExact(p)
  {
    ParsesMended();
    MendedExample();
    MendedIsExact(MENDED);
  }
}
