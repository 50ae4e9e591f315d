/** Whose host is this: the ownership patterns of `endpointAuth.hosts`, applied to a whole host name. */
module HostOwnership {
  import opened Bytes
  import opened Strings
  import opened HostTemplate
  import HostUsers

  /** One ownership pattern. A regex is kept as the function from stem to captured user it denotes. */
  datatype Ownership = Template(template: string) | Regex(user: string -> Option<string>) | Nothing

  datatype HostsConfig = HostsConfig(suffix: string, ownership: seq<Ownership>)

  datatype Reading = Users(users: set<string>) | Unreadable

  function Normal(host: string): string {
    Lower(TrimDots(TrimEnd(TrimStart(host))))
  }

  /** The host without the governed suffix, or nothing when it is not under it. */
  function Stem(config: HostsConfig, host: string): Option<string> {
    var h, suffix := Normal(host), Lower(config.suffix);
    if |suffix| <= |h| && h[|h| - |suffix|..] == suffix then Some(h[..|h| - |suffix|]) else None
  }

  /** What one pattern reads out of a stem: the empty set when it does not match. */
  function PatternUsers(pattern: Ownership, stem: string): set<string> {
    match pattern
    case Template(template) => Walked(Parse(template), stem, None)
    case Regex(user) => (match user(stem) case Some(u) => {Lower(u)} case None => {})
    case Nothing => {}
  }

  /** The first pattern that reads somebody decides. */
  function ReadFirst(patterns: seq<Ownership>, stem: string): Reading {
    if patterns == [] then Unreadable
    else if PatternUsers(patterns[0], stem) != {} then Users(PatternUsers(patterns[0], stem))
    else ReadFirst(patterns[1..], stem)
  }

  function ReadingOf(config: HostsConfig, host: string): Reading {
    match Stem(config, host)
    case None => Unreadable
    case Some(stem) => ReadFirst(config.ownership, stem)
  }

  method Read(config: HostsConfig, host: string) returns (r: Reading)
    ensures r == ReadingOf(config, host)
  {
    var stem := Stem(config, host);
    if stem.None? {
      return Unreadable;
    }
    assert config.ownership[0..] == config.ownership;
    for i := 0 to |config.ownership|
      invariant ReadFirst(config.ownership[i..], stem.value) == ReadFirst(config.ownership, stem.value)
    {
      assert config.ownership[i..][1..] == config.ownership[i + 1..];
      match config.ownership[i] {
        case Template(template) =>
          var users := TemplateUsers(template, stem.value);
          if users != {} {
            return Users(users);
          }
        case Regex(user) =>
          var found := user(stem.value);
          if found.Some? {
            return Users({Lower(found.value)});
          }
        case Nothing =>
      }
    }
    return Unreadable;
  }

  /** The host is `owner`'s when `owner` is a reading of it and no other reading is somebody. */
  predicate OwnedBy(config: HostsConfig, host: string, owner: string, isUser: string -> bool) {
    var o := Lower(owner);
    match ReadingOf(config, host)
    case Users(users) => o in users && forall u | u in users && u != o :: !isUser(u)
    case Unreadable => false
  }

  /** The host definitely reads as somebody else's. */
  predicate ClaimedByAnother(config: HostsConfig, host: string, owner: string) {
    match ReadingOf(config, host)
    case Users(users) => users != {} && Lower(owner) !in users
    case Unreadable => false
  }

  // ----- spellings of one host

  lemma {:induction false} TrimStartLower(s: string)
    ensures TrimStart(Lower(s)) == Lower(TrimStart(s))
  {
    if s != [] && IsWhitespace(s[0]) {
      assert Lower(s)[1..] == Lower(s[1..]);
      TrimStartLower(s[1..]);
    }
  }

  lemma {:induction false} TrimEndLower(s: string)
    ensures TrimEnd(Lower(s)) == Lower(TrimEnd(s))
  {
    if s != [] && IsWhitespace(s[|s| - 1]) {
      assert Lower(s)[..|s| - 1] == Lower(s[..|s| - 1]);
      TrimEndLower(s[..|s| - 1]);
    }
  }

  lemma {:induction false} TrimDotsLower(s: string)
    ensures TrimDots(Lower(s)) == Lower(TrimDots(s))
  {
    if s != [] && s[|s| - 1] == '.' {
      assert Lower(s)[..|s| - 1] == Lower(s[..|s| - 1]);
      TrimDotsLower(s[..|s| - 1]);
    }
  }

  lemma NormalOfLower(host: string)
    ensures Normal(Lower(host)) == Normal(host)
  {
    TrimStartLower(host);
    TrimEndLower(TrimStart(host));
    TrimDotsLower(TrimEnd(TrimStart(host)));
    var h := TrimDots(TrimEnd(TrimStart(host)));
    assert Lower(Lower(h)) == Lower(h);
  }

  lemma NormalOfDotted(host: string)
    requires host != [] && !IsWhitespace(host[0]) && !IsWhitespace(host[|host| - 1])
    ensures Normal(host + ".") == Normal(host)
  {
    var dotted := host + ".";
    assert dotted[..|dotted| - 1] == host;
    assert TrimEnd(TrimStart(dotted)) == dotted;
  }

  lemma NormalOfOtherCase(host: string, other: string)
    requires SameButForCase(host, other)
    ensures Normal(other) == Normal(host)
  {
    LowerForgetsCase(host, other);
    NormalOfLower(host);
    NormalOfLower(other);
  }

  lemma ReadingByNormal(config: HostsConfig, host: string, other: string)
    requires Normal(other) == Normal(host)
    ensures ReadingOf(config, other) == ReadingOf(config, host)
  {
  }

  /** Letter case and the dot of a fully qualified name do not change whose host it is. */
  lemma SpellingDoesNotMatter(config: HostsConfig, host: string, other: string)
    ensures SameButForCase(host, other) ==> ReadingOf(config, other) == ReadingOf(config, host)
    ensures host != [] && !IsWhitespace(host[0]) && !IsWhitespace(host[|host| - 1]) ==>
              ReadingOf(config, host + ".") == ReadingOf(config, host)
  {
    if SameButForCase(host, other) {
      NormalOfOtherCase(host, other);
      ReadingByNormal(config, host, other);
    }
    if host != [] && !IsWhitespace(host[0]) && !IsWhitespace(host[|host| - 1]) {
      NormalOfDotted(host);
      ReadingByNormal(config, host, host + ".");
    }
  }

  // ----- the governed suffix

  /** A host has a stem exactly when its normal form is that stem and then the suffix. */
  lemma StemIs(config: HostsConfig, host: string, stem: string)
    ensures Stem(config, host) == Some(stem) <==> Normal(host) == stem + Lower(config.suffix)
  {
    var h, suffix := Normal(host), Lower(config.suffix);
    if h == stem + suffix {
      assert h[|stem|..] == suffix && h[..|stem|] == stem;
    }
    if |suffix| <= |h| {
      assert h == h[..|h| - |suffix|] + h[|h| - |suffix|..];
    }
  }

  /** Outside the suffix nothing is read: the host is nobody's, and nobody is told it is another's. */
  lemma OutsideSuffixIsNobodys(config: HostsConfig, host: string, owner: string, isUser: string -> bool)
    requires forall stem :: Normal(host) != stem + Lower(config.suffix)
    ensures ReadingOf(config, host) == Unreadable
    ensures !OwnedBy(config, host, owner, isUser) && !ClaimedByAnother(config, host, owner)
  {
    if Stem(config, host).Some? {
      StemIs(config, host, Stem(config, host).value);
    }
  }

  /** The normal form of a host: what stands between whitespace, without its last dots, in lower case. */
  lemma NormalIs(host: string) returns (before: string, core: string, dots: string, after: string)
    ensures host == before + (core + dots + after)
    ensures AllWhitespace(before) && AllWhitespace(after) && forall i | 0 <= i < |dots| :: dots[i] == '.'
    ensures core != [] ==> core[|core| - 1] != '.'
    ensures Normal(host) == Lower(core)
  {
    core := TrimDots(TrimEnd(TrimStart(host)));
    before := TrimStartIs(host);
    after := TrimEndIs(TrimStart(host));
    dots := TrimDotsIs(TrimEnd(TrimStart(host)));
  }

  // ----- the laws

  /** Two existing people never both own a host, and whoever owns it is not told it is another's. */
  lemma AtMostOneOwner(config: HostsConfig, host: string, a: string, b: string, isUser: string -> bool)
    requires isUser(Lower(a)) && isUser(Lower(b)) && Lower(a) != Lower(b)
    ensures !(OwnedBy(config, host, a, isUser) && OwnedBy(config, host, b, isUser))
    ensures OwnedBy(config, host, a, isUser) ==> !ClaimedByAnother(config, host, a)
  {
  }

  /** Template `template` declares that `stem` can belong to `u`. */
  ghost predicate Declares(template: string, stem: string, u: string) {
    exists caps :: Reads(Parse(template), stem, caps) && UserOf(Parse(template), caps, None) == Some(u)
  }

  /** `template` is the pattern that decides about `stem`. */
  ghost predicate Decides(config: HostsConfig, stem: string, template: string) {
    exists i ::
      && 0 <= i < |config.ownership|
      && config.ownership[i] == Template(template)
      && PatternUsers(config.ownership[i], stem) != {}
      && forall j | 0 <= j < i :: PatternUsers(config.ownership[j], stem) == {}
  }

  lemma {:induction false} ReadFirstAt(patterns: seq<Ownership>, stem: string, i: nat)
    requires i < |patterns| && PatternUsers(patterns[i], stem) != {}
    requires forall j | 0 <= j < i :: PatternUsers(patterns[j], stem) == {}
    ensures ReadFirst(patterns, stem) == Users(PatternUsers(patterns[i], stem))
  {
    if i > 0 {
      assert PatternUsers(patterns[0], stem) == {};
      ReadFirstAt(patterns[1..], stem, i - 1);
    }
  }

  lemma DecidedReading(config: HostsConfig, host: string, stem: string, template: string)
    requires Stem(config, host) == Some(stem) && Decides(config, stem, template)
    ensures ReadingOf(config, host) == Users(Walked(Parse(template), stem, None))
  {
    var i :| && 0 <= i < |config.ownership|
             && config.ownership[i] == Template(template)
             && PatternUsers(config.ownership[i], stem) != {}
             && forall j | 0 <= j < i :: PatternUsers(config.ownership[j], stem) == {};
    ReadFirstAt(config.ownership, stem, i);
  }

  /** `pattern` has something to say about `stem`. */
  ghost predicate Matches(pattern: Ownership, stem: string) {
    match pattern
    case Template(template) => exists u :: u in Walked(Parse(template), stem, None)
    case Regex(user) => user(stem).Some?
    case Nothing => false
  }

  lemma MatchingUsers(pattern: Ownership, stem: string)
    ensures Matches(pattern, stem) <==> PatternUsers(pattern, stem) != {}
  {
    if pattern.Template? && Walked(Parse(pattern.template), stem, None) != {} {
      var u :| u in Walked(Parse(pattern.template), stem, None);
    }
  }

  lemma {:induction false} ReadsNobody(patterns: seq<Ownership>, stem: string)
    requires forall j | 0 <= j < |patterns| :: !Matches(patterns[j], stem)
    ensures ReadFirst(patterns, stem) == Unreadable
  {
    if patterns != [] {
      MatchingUsers(patterns[0], stem);
      ReadsNobody(patterns[1..], stem);
    }
  }

  /** The first pattern that matches answers, with everything the template reads or the one user of the regex. */
  lemma FirstMatchAnswers(config: HostsConfig, host: string, stem: string, i: nat)
    requires Normal(host) == stem + Lower(config.suffix) && i <= |config.ownership|
    requires forall j | 0 <= j < i :: !Matches(config.ownership[j], stem)
    requires i < |config.ownership| ==> Matches(config.ownership[i], stem)
    ensures i == |config.ownership| ==> ReadingOf(config, host) == Unreadable
    ensures i < |config.ownership| && config.ownership[i].Template? ==>
              ReadingOf(config, host) == Users(Walked(Parse(config.ownership[i].template), stem, None))
    ensures i < |config.ownership| && config.ownership[i].Regex? ==>
              ReadingOf(config, host) == Users({Lower(config.ownership[i].user(stem).value)})
  {
    StemIs(config, host, stem);
    forall j | 0 <= j < |config.ownership|
      ensures Matches(config.ownership[j], stem) <==> PatternUsers(config.ownership[j], stem) != {}
    {
      MatchingUsers(config.ownership[j], stem);
    }
    if i < |config.ownership| {
      ReadFirstAt(config.ownership, stem, i);
    } else {
      ReadsNobody(config.ownership, stem);
    }
  }

  /** Ownership is always declared: the owner's name really can be read out of the host. */
  lemma OwnershipIsDeclared(config: HostsConfig, host: string, stem: string, template: string, owner: string,
                            isUser: string -> bool)
    requires Stem(config, host) == Some(stem) && Decides(config, stem, template)
    requires OwnedBy(config, host, owner, isUser)
    ensures Declares(template, stem, Lower(owner))
  {
    DecidedReading(config, host, stem, template);
    var caps := WalkIsSound(Parse(template), stem, Lower(owner));
  }

  /**
   * Under a mended template, and every regular one is, the answers are exact: a host is somebody's when
   * the template declares them and declares no other existing person, and it is another's when it does
   * not declare them.
   */
  lemma MendedOwnershipIsExact(config: HostsConfig, host: string, stem: string, template: string, owner: string,
                               isUser: string -> bool)
    requires Stem(config, host) == Some(stem) && Decides(config, stem, template)
    requires HostUsers.Mended(Parse(template))
    ensures OwnedBy(config, host, owner, isUser) <==>
            && Declares(template, stem, Lower(owner))
            && forall u | Declares(template, stem, u) && u != Lower(owner) :: !isUser(u)
    ensures ClaimedByAnother(config, host, owner) <==> !Declares(template, stem, Lower(owner))
  {
    DecidedReading(config, host, stem, template);
    HostUsers.MendedIsExact(Parse(template));
    forall u
      ensures u in Walked(Parse(template), stem, None) <==> Declares(template, stem, u)
    {
      if u in Walked(Parse(template), stem, None) {
        var caps := WalkIsSound(Parse(template), stem, u);
      }
    }
  }
}
