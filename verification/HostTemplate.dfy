/**
 * Reading a user out of a host by a template such as `{user}-{workspace}-{endpoint}`: the first-split
 * matcher, the all-splits matcher, and what a template declares a host to mean.
 */
module HostTemplate {
  import opened Bytes
  import opened Strings

  /** Literal text, a placeholder, and so on; `Unclosed` where a `{` has no `}`. */
  datatype Pattern =
    | Tail(lit: string)
    | Slot(lit: string, name: string, rest: Pattern)
    | Unclosed(lit: string)

  function Parse(template: string): (p: Pattern)
    decreases |template|
  {
    var open := Find(template, '{');
    if open == |template| then Tail(template) else ParseBrace(template[..open], template[open + 1..])
  }

  /** `lit`, an opening brace, and `after`. */
  function ParseBrace(lit: string, after: string): (p: Pattern)
    ensures p.lit == lit && !p.Tail?
    decreases |after|
  {
    var close := Find(after, '}');
    if close == |after| then Unclosed(lit) else Slot(lit, after[..close], Parse(after[close + 1..]))
  }

  /** Text without a brace is literal text. */
  lemma ParsesText(text: string)
    requires '{' !in text
    ensures Parse(text) == Tail(text)
  {
  }

  /** Text up to a brace, the name up to the next closing brace, and the rest is a template again. */
  lemma ParsesSlot(lit: string, name: string, rest: string)
    requires '{' !in lit && '}' !in name
    ensures Parse(lit + ("{" + (name + ("}" + rest)))) == Slot(lit, name, Parse(rest))
  {
    var after := name + ("}" + rest);
    FindAt(lit, '{', after);
    FindAt(name, '}', rest);
    assert lit + ("{" + after) == lit + (['{'] + after) && name + ("}" + rest) == name + (['}'] + rest);
  }

  /** A brace that is never closed is kept apart: such a template reads nobody. */
  lemma ParsesUnclosed(lit: string, after: string)
    requires '{' !in lit && '}' !in after
    ensures Parse(lit + ("{" + after)) == Unclosed(lit)
  {
    FindAt(lit, '{', after);
    assert lit + ("{" + after) == lit + (['{'] + after);
  }

  /** What a placeholder may capture: something, within one label. */
  predicate Good(capture: string) {
    capture != [] && '.' !in capture
  }

  // ----- what a template declares

  predicate Closed(p: Pattern) {
    match p
    case Tail(_) => true
    case Slot(_, _, rest) => Closed(rest)
    case Unclosed(_) => false
  }

  function Slots(p: Pattern): nat {
    if p.Slot? then 1 + Slots(p.rest) else 0
  }

  /** The stem a list of captures spells. */
  function Rebuild(p: Pattern, caps: seq<string>): string
    requires |caps| == Slots(p)
  {
    if p.Slot? then p.lit + (caps[0] + Rebuild(p.rest, caps[1..])) else p.lit
  }

  /** `caps` is a way to read `stem`: good captures, one per placeholder, that spell it. */
  predicate Reads(p: Pattern, stem: string, caps: seq<string>) {
    && Closed(p)
    && |caps| == Slots(p)
    && (forall i | 0 <= i < |caps| :: Good(caps[i]))
    && Rebuild(p, caps) == stem
  }

  /** A reading with nothing left unsaid: no capture is empty or crosses a dot, and together they spell the stem. */
  lemma ReadsMeans(p: Pattern, stem: string, caps: seq<string>)
    requires |caps| == Slots(p)
    ensures Reads(p, stem, caps) <==>
            && Closed(p)
            && (forall i | 0 <= i < |caps| :: caps[i] != "" && '.' !in caps[i])
            && Rebuild(p, caps) == stem
  {
  }

  /** The last capture named `user`, or `user` when there is none. */
  function UserOf(p: Pattern, caps: seq<string>, user: Option<string>): Option<string>
    requires |caps| == Slots(p)
  {
    if p.Slot? then UserOf(p.rest, caps[1..], if p.name == "user" then Some(caps[0]) else user) else user
  }

  // ----- the two matchers, on a parsed template

  /** Where a capture may end: at the end when no literal follows, else where `match_indices` finds it. */
  function Candidates(rest: string, next: string): (ends: seq<nat>)
    ensures forall i | 0 <= i < |ends| :: ends[i] <= |rest|
  {
    if next == [] then [|rest|] else MatchIndices(rest, next, 0)
  }

  /** Every user the walk inserts. */
  function Walked(p: Pattern, stem: string, user: Option<string>): set<string>
    decreases p, 0
  {
    match p
    case Unclosed(_) => {}
    case Tail(lit) => if stem == lit && user.Some? then {user.value} else {}
    case Slot(lit, name, rest) =>
      if !(lit <= stem) then {}
      else WalkedEnds(rest, stem[|lit|..], Candidates(stem[|lit|..], rest.lit), name == "user", user)
  }

  /** The users found when the capture at the head of `r` ends at one of `ends`. */
  function WalkedEnds(rest: Pattern, r: string, ends: seq<nat>, isUser: bool, user: Option<string>): set<string>
    requires forall i | 0 <= i < |ends| :: ends[i] <= |r|
    decreases rest, |ends| + 1
  {
    if ends == [] then {}
    else WalkedEnd(rest, r, ends[0], isUser, user) + WalkedEnds(rest, r, ends[1..], isUser, user)
  }

  function WalkedEnd(rest: Pattern, r: string, end: nat, isUser: bool, user: Option<string>): set<string>
    requires end <= |r|
    decreases rest, 1
  {
    if Good(r[..end]) then Walked(rest, r[end..], if isUser then Some(r[..end]) else user) else {}
  }

  /** The user the first-split matcher returns. */
  function FirstSplit(p: Pattern, stem: string, user: Option<string>): Option<string> {
    match p
    case Unclosed(_) => None
    case Tail(lit) => if stem == lit then user else None
    case Slot(lit, name, rest) =>
      if !(lit <= stem) then None
      else
        var r := stem[|lit|..];
        var end := if rest.lit == [] then |r| else FindText(r, rest.lit, 0);
        if end > |r| || !Good(r[..end]) then None
        else FirstSplit(rest, r[end..], if name == "user" then Some(r[..end]) else user)
  }

  // ----- the source's loops refine them

  /** What the searches for `{` and then `}` find at the head of a template. */
  datatype Head = AllLiteral | Brace(lit: string, name: string, after: string) | Dangling

  method TakeBrace(lit: string, after: string) returns (h: Head)
    ensures !h.AllLiteral?
    ensures h.Brace? ==>
              h.lit == lit && ParseBrace(lit, after) == Slot(lit, h.name, Parse(h.after)) && |h.after| <= |after|
    ensures h.Dangling? ==> ParseBrace(lit, after).Unclosed?
  {
    var close := Find(after, '}');
    if close == |after| {
      return Dangling;
    }
    return Brace(lit, after[..close], after[close + 1..]);
  }

  method TakeHead(remaining: string) returns (h: Head)
    ensures h.AllLiteral? ==> Parse(remaining) == Tail(remaining)
    ensures h.Brace? ==> Parse(remaining) == Slot(h.lit, h.name, Parse(h.after)) && |h.after| < |remaining|
    ensures h.Dangling? ==> Parse(remaining).Unclosed?
  {
    var open := Find(remaining, '{');
    if open == |remaining| {
      return AllLiteral;
    }
    h := TakeBrace(remaining[..open], remaining[open + 1..]);
  }

  lemma ParseLit(s: string)
    ensures Parse(s).lit == s[..Find(s, '{')]
  {
  }

  method NextLiteral(after: string) returns (next: string)
    ensures next == Parse(after).lit
  {
    ParseLit(after);
    return after[..Find(after, '{')];
  }

  method MatchTemplate(template: string, stem: string) returns (r: Option<string>)
    ensures r == FirstSplit(Parse(template), stem, None)
  {
    var user: Option<string> := None;
    var rest := stem;
    var remaining := template;
    ghost var whole := Parse(template);
    ghost var p := whole;
    while remaining != []
      invariant p == Parse(remaining)
      invariant FirstSplit(p, rest, user) == FirstSplit(whole, stem, None)
      decreases |remaining|
    {
      var head := TakeHead(remaining);
      if head.AllLiteral? {
        return if rest == remaining then user else None;
      }
      if head.Dangling? || !(head.lit <= rest) {
        return None;
      }
      rest := rest[|head.lit|..];
      remaining := head.after;
      var next := NextLiteral(remaining);
      var end := if next == [] then |rest| else FindText(rest, next, 0);
      if end > |rest| || !Good(rest[..end]) {
        return None;
      }
      if head.name == "user" {
        user := Some(rest[..end]);
      }
      rest := rest[end..];
      p := p.rest;
    }
    assert p == Tail([]);
    return if rest == [] then user else None;
  }

  method TemplateUsers(template: string, stem: string) returns (out: set<string>)
    ensures out == Walked(Parse(template), stem, None)
  {
    out := Walk(template, stem, None, {});
  }

  method Walk(remaining: string, rest: string, user: Option<string>, found: set<string>) returns (out: set<string>)
    ensures out == found + Walked(Parse(remaining), rest, user)
    decreases |remaining|, 0
  {
    out := found;
    var head := TakeHead(remaining);
    match head {
      case AllLiteral =>
        if rest == remaining && user.Some? {
          out := out + {user.value};
        }
      case Dangling =>
      case Brace(lit, name, after) =>
        if lit <= rest {
          out := WalkSlot(after, rest[|lit|..], name, user, found, Parse(after));
        }
    }
  }

  lemma WalkedFrom(p: Pattern, r: string, ends: seq<nat>, isUser: bool, user: Option<string>, i: nat)
    requires forall i | 0 <= i < |ends| :: ends[i] <= |r|
    requires i < |ends|
    ensures WalkedEnds(p, r, ends[i..], isUser, user)
         == WalkedEnd(p, r, ends[i], isUser, user) + WalkedEnds(p, r, ends[i + 1..], isUser, user)
  {
  }

  /** The loop over where one capture may end. */
  method WalkSlot(after: string, r: string, name: string, user: Option<string>, found: set<string>, ghost p: Pattern)
    returns (out: set<string>)
    requires p == Parse(after)
    ensures out == found + WalkedEnds(p, r, Candidates(r, p.lit), name == "user", user)
    decreases |after|, 1
  {
    out := found;
    var next := NextLiteral(after);
    var ends := Candidates(r, next);
    assert ends[0..] == ends;
    for i := 0 to |ends|
      invariant out + WalkedEnds(p, r, ends[i..], name == "user", user)
             == found + WalkedEnds(p, r, ends, name == "user", user)
    {
      WalkedFrom(p, r, ends, name == "user", user, i);
      ghost var before := out;
      var value := r[..ends[i]];
      if Good(value) {
        out := Walk(after, r[ends[i]..], if name == "user" then Some(value) else user, out);
      }
      assert out == before + WalkedEnd(p, r, ends[i], name == "user", user);
    }
  }

  // ----- the walk, split by split

  /** The walk visits the split `caps`. */
  predicate Explored(p: Pattern, stem: string, caps: seq<string>) {
    match p
    case Unclosed(_) => false
    case Tail(lit) => caps == [] && stem == lit
    case Slot(lit, name, rest) =>
      && lit <= stem
      && caps != []
      && var r := stem[|lit|..];
      && |caps[0]| in Candidates(r, rest.lit)
      && caps[0] == r[..|caps[0]|]
      && Good(caps[0])
      && Explored(rest, r[|caps[0]|..], caps[1..])
  }

  lemma ReadsCons(p: Pattern, capture: string, stem: string, caps: seq<string>)
    requires p.Slot? && Good(capture) && Reads(p.rest, stem, caps)
    ensures Reads(p, p.lit + (capture + stem), [capture] + caps)
  {
  }

  lemma ReadsUncons(p: Pattern, stem: string, caps: seq<string>)
    requires p.Slot? && Reads(p, stem, caps)
    ensures Good(caps[0])
    ensures Reads(p.rest, Rebuild(p.rest, caps[1..]), caps[1..])
    ensures stem == p.lit + (caps[0] + Rebuild(p.rest, caps[1..]))
  {
  }

  lemma CutStem(lit: string, capture: string, stem: string)
    requires lit <= stem && capture <= stem[|lit|..]
    ensures lit + (capture + stem[|lit|..][|capture|..]) == stem
  {
  }

  lemma {:induction false} ExploredReads(p: Pattern, stem: string, caps: seq<string>)
    requires Explored(p, stem, caps)
    ensures Reads(p, stem, caps)
  {
    if p.Slot? {
      var r := stem[|p.lit|..];
      ExploredReads(p.rest, r[|caps[0]|..], caps[1..]);
      CutStem(p.lit, caps[0], stem);
      ReadsCons(p, caps[0], r[|caps[0]|..], caps[1..]);
      assert [caps[0]] + caps[1..] == caps;
    }
  }

  lemma {:induction false} WalkedAtEnd(rest: Pattern, r: string, ends: seq<nat>, isUser: bool,
                                       user: Option<string>, u: string)
    returns (i: nat)
    requires forall i | 0 <= i < |ends| :: ends[i] <= |r|
    requires u in WalkedEnds(rest, r, ends, isUser, user)
    ensures i < |ends| && u in WalkedEnd(rest, r, ends[i], isUser, user)
    decreases |ends|
  {
    if u in WalkedEnd(rest, r, ends[0], isUser, user) {
      i := 0;
    } else {
      i := WalkedAtEnd(rest, r, ends[1..], isUser, user, u);
      i := i + 1;
    }
  }

  lemma {:induction false} WalkedContainsEnd(rest: Pattern, r: string, ends: seq<nat>, isUser: bool,
                                             user: Option<string>, i: nat)
    requires forall i | 0 <= i < |ends| :: ends[i] <= |r|
    requires i < |ends|
    ensures WalkedEnd(rest, r, ends[i], isUser, user) <= WalkedEnds(rest, r, ends, isUser, user)
    decreases |ends|
  {
    if i > 0 {
      WalkedContainsEnd(rest, r, ends[1..], isUser, user, i - 1);
    }
  }

  lemma {:induction false} WalkedIsExplored(p: Pattern, stem: string, user: Option<string>, u: string)
    returns (caps: seq<string>)
    requires u in Walked(p, stem, user)
    ensures Explored(p, stem, caps)
    ensures |caps| == Slots(p) && UserOf(p, caps, user) == Some(u)
  {
    match p
    case Tail(_) =>
      caps := [];
    case Slot(lit, name, rest) =>
      var r := stem[|lit|..];
      var ends := Candidates(r, rest.lit);
      var i := WalkedAtEnd(rest, r, ends, name == "user", user, u);
      var value := r[..ends[i]];
      var inner := WalkedIsExplored(rest, r[ends[i]..], if name == "user" then Some(value) else user, u);
      caps := [value] + inner;
      assert caps[1..] == inner;
  }

  lemma {:induction false} ExploredIsWalked(p: Pattern, stem: string, user: Option<string>, caps: seq<string>)
    requires Explored(p, stem, caps)
    ensures |caps| == Slots(p)
    ensures UserOf(p, caps, user).Some? ==> UserOf(p, caps, user).value in Walked(p, stem, user)
  {
    if p.Slot? {
      var r := stem[|p.lit|..];
      var ends := Candidates(r, p.rest.lit);
      var i :| 0 <= i < |ends| && ends[i] == |caps[0]|;
      ExploredIsWalked(p.rest, r[ends[i]..], if p.name == "user" then Some(caps[0]) else user, caps[1..]);
      WalkedContainsEnd(p.rest, r, ends, p.name == "user", user, i);
    }
  }

  /** Every user the walk finds is one the template declares: good captures spell the stem. */
  lemma WalkIsSound(p: Pattern, stem: string, u: string) returns (caps: seq<string>)
    requires u in Walked(p, stem, None)
    ensures Reads(p, stem, caps) && UserOf(p, caps, None) == Some(u)
    ensures forall i | 0 <= i < |caps| :: caps[i] != "" && '.' !in caps[i]
  {
    caps := WalkedIsExplored(p, stem, None, u);
    ExploredReads(p, stem, caps);
  }

  lemma FirstCandidate(r: string, next: string, end: nat)
    requires end == if next == [] then |r| else FindText(r, next, 0)
    requires end <= |r|
    ensures Candidates(r, next) != [] && Candidates(r, next)[0] == end
  {
  }

  /** Every capture stops at the first place it may: where the next literal first stands, or at the very end. */
  ghost predicate Leftmost(p: Pattern, caps: seq<string>)
    requires |caps| == Slots(p)
  {
    p.Slot? ==>
      var tail := Rebuild(p.rest, caps[1..]);
      && (p.rest.lit == [] ==> tail == [])
      && (p.rest.lit != [] ==> forall j | 0 <= j < |caps[0]| :: !Occurs(caps[0] + tail, p.rest.lit, j))
      && Leftmost(p.rest, caps[1..])
  }

  lemma LeftmostEnd(next: Pattern, capture: string, tail: string, r: string)
    requires r == capture + tail && next.lit <= tail
    ensures var end := if next.lit == [] then |r| else FindText(r, next.lit, 0);
            (end == |capture|) <==>
            if next.lit == [] then tail == [] else forall j | 0 <= j < |capture| :: !Occurs(r, next.lit, j)
  {
    assert Occurs(r, next.lit, |capture|) by {
      assert r[|capture|..] == tail;
      assert r[|capture|..|capture| + |next.lit|] == tail[..|next.lit|];
    }
  }

  lemma {:induction false} LitStarts(p: Pattern, caps: seq<string>)
    requires |caps| == Slots(p)
    ensures p.lit <= Rebuild(p, caps)
  {
  }

  /** The first-split matcher takes the leftmost reading. */
  lemma {:induction false} FirstSplitIsLeftmost(p: Pattern, stem: string, user: Option<string>)
    returns (caps: seq<string>)
    requires FirstSplit(p, stem, user).Some?
    ensures |caps| == Slots(p) && Reads(p, stem, caps) && Leftmost(p, caps)
    ensures UserOf(p, caps, user) == FirstSplit(p, stem, user)
  {
    if p.Slot? {
      var r := stem[|p.lit|..];
      var end := if p.rest.lit == [] then |r| else FindText(r, p.rest.lit, 0);
      var inner := FirstSplitIsLeftmost(p.rest, r[end..], if p.name == "user" then Some(r[..end]) else user);
      caps := [r[..end]] + inner;
      assert caps[1..] == inner;
      CutStem(p.lit, r[..end], stem);
      ReadsCons(p, r[..end], r[end..], inner);
      LitStarts(p.rest, inner);
      assert r == r[..end] + r[end..];
      LeftmostEnd(p.rest, r[..end], r[end..], r);
    } else {
      caps := [];
    }
  }

  /** And whenever there is a leftmost reading, it is found. */
  lemma {:induction false} LeftmostIsFirstSplit(p: Pattern, stem: string, user: Option<string>, caps: seq<string>)
    requires |caps| == Slots(p) && Reads(p, stem, caps) && Leftmost(p, caps)
    ensures FirstSplit(p, stem, user) == UserOf(p, caps, user)
  {
    if p.Slot? {
      ReadsUncons(p, stem, caps);
      var tail := Rebuild(p.rest, caps[1..]);
      var r := stem[|p.lit|..];
      assert r == caps[0] + tail;
      LitStarts(p.rest, caps[1..]);
      LeftmostEnd(p.rest, caps[0], tail, r);
      assert r[..|caps[0]|] == caps[0] && r[|caps[0]|..] == tail;
      LeftmostIsFirstSplit(p.rest, tail, if p.name == "user" then Some(caps[0]) else user, caps[1..]);
    }
  }

  /** The walk always finds what the first-split matcher finds. */
  lemma {:induction false} FirstSplitIsWalked(p: Pattern, stem: string, user: Option<string>)
    requires FirstSplit(p, stem, user).Some?
    ensures FirstSplit(p, stem, user).value in Walked(p, stem, user)
  {
    if p.Slot? {
      var r := stem[|p.lit|..];
      var end := if p.rest.lit == [] then |r| else FindText(r, p.rest.lit, 0);
      FirstCandidate(r, p.rest.lit, end);
      FirstSplitIsWalked(p.rest, r[end..], if p.name == "user" then Some(r[..end]) else user);
      WalkedContainsEnd(p.rest, r, Candidates(r, p.rest.lit), p.name == "user", user, 0);
    }
  }
}
