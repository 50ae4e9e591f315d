/** Planning one person's workspace application: every fence it passes before Argo CD is told about it. */
module ApplicationPlan {
  import opened Bytes
  import opened TemplateLanguage
  import opened ValueTree
  import opened ArgoApplication
  import opened UrlFence
  import opened Splitting

  datatype User = User(username: string, objectName: string, team: Option<string>, email: Option<string>,
                       displayName: string, namespace: Option<string>, values: Option<Value>)

  datatype Team = Team(name: string, che: Option<ApplicationTemplate>)

  datatype Config = Config(applicationNamespace: string, allowedProjects: seq<string>, allowedRepoUrls: seq<string>)

  datatype PlanViolation =
    | WorkspaceWithoutTeam(user: string)
    | WorkspaceWithoutTemplate(user: string, team: string)
    | WorkspaceDisabledByTeam(user: string, team: string)
    | TemplateInvalid(team: string, violation: Violation)
    | ProjectNotAllowed(team: string, project: string)
    | RepoUrlNotAllowed(team: string, repoUrl: string)
    | RenderFailed(user: string, error: TemplateError)

  /** The five variables a person resolves directly. */
  function UserBindings(user: User): (b: Bindings)
    ensures b.Keys == {USERNAME, OBJECT_NAME, TEAM_NAME, EMAIL, DISPLAY_NAME}
    ensures Binds(b, BASE_VARIABLES) && BindsOnly(b, BASE_VARIABLES)
    ensures b[USERNAME] == user.username && b[OBJECT_NAME] == user.objectName && b[DISPLAY_NAME] == user.displayName
    ensures user.team == None || user.team == Some(b[TEAM_NAME])
    ensures user.email == None || user.email == Some(b[EMAIL])
    ensures user.team.None? ==> b[TEAM_NAME] == ""
    ensures user.email.None? ==> b[EMAIL] == ""
  {
    map[USERNAME := user.username,
        OBJECT_NAME := user.objectName,
        TEAM_NAME := Chosen(user.team, ""),
        EMAIL := Chosen(user.email, ""),
        DISPLAY_NAME := user.displayName]
  }

  /** An entry ending in `*` matches by prefix, any other exactly; an empty list matches nothing. */
  predicate AllowListed(patterns: seq<string>, value: string) {
    exists i | 0 <= i < |patterns| :: Matches(patterns[i], value)
  }

  predicate Matches(pattern: string, value: string) {
    if pattern != [] && pattern[|pattern| - 1] == '*' then pattern[..|pattern| - 1] <= value else pattern == value
  }

  /** The UTF-8 bytes of a string, as section 3 of RFC 3629 lays them out. */
  function Utf8(s: string): Text {
    if s == [] then [] else Utf8Char(s[0]) + Utf8(s[1..])
  }

  function Utf8Char(c: char): Text {
    var n := c as int;
    if n < 0x80 then [n]
    else if n < 0x800 then [0xC0 + n / 0x40, 0x80 + n % 0x40]
    else if n < 0x1_0000 then [0xE0 + n / 0x1000, 0x80 + n / 0x40 % 0x40, 0x80 + n % 0x40]
    else [0xF0 + n / 0x4_0000, 0x80 + n / 0x1000 % 0x40, 0x80 + n / 0x40 % 0x40, 0x80 + n % 0x40]
  }

  /** What an allow-list lets through: a listed entry, or what starts like a listed prefix. */
  lemma ListedOrUnderPrefix(patterns: seq<string>, value: string)
    ensures AllowListed(patterns, value) <==>
            value in patterns || exists prefix :: prefix <= value && prefix + "*" in patterns
  {
    forall i | 0 <= i < |patterns|
      ensures Matches(patterns[i], value) <==>
              patterns[i] == value || exists prefix :: prefix <= value && patterns[i] == prefix + "*"
    {
      MatchesMeans(patterns[i], value);
    }
  }

  lemma MatchesMeans(pattern: string, value: string)
    ensures Matches(pattern, value) <==>
            pattern == value || exists prefix :: prefix <= value && pattern == prefix + "*"
  {
    if pattern != [] && pattern[|pattern| - 1] == '*' {
      assert pattern == pattern[..|pattern| - 1] + "*";
    }
  }

  // ----- the fence, seen from the string

  lemma {:induction false} Utf8Concat(a: string, b: string)
    ensures Utf8(a + b) == Utf8(a) + Utf8(b)
  {
    if a == [] {
      assert a + b == b;
    } else {
      assert (a + b)[1..] == a[1..] + b;
      Utf8Concat(a[1..], b);
      assert Utf8Char(a[0]) + (Utf8(a[1..]) + Utf8(b)) == Utf8Char(a[0]) + Utf8(a[1..]) + Utf8(b);
    }
  }

  /** A character below 0x80 is its own byte, and no other character has such a byte. */
  lemma Utf8OfOne(c: char)
    ensures c as int < 0x80 ==> Utf8([c]) == [c as int]
    ensures c as int >= 0x80 ==> |Utf8([c])| > 1 && forall i | 0 <= i < |Utf8([c])| :: Utf8([c])[i] >= 0x80
  {
    assert [c][1..] == [];
    assert Utf8([c]) == Utf8Char(c) + [] == Utf8Char(c);
  }

  /** How many bytes a character takes, from its first byte. */
  function Lead(b: Byte): nat {
    if b < 0x80 then 1 else if b < 0xE0 then 2 else if b < 0xF0 then 3 else 4
  }

  /** What a byte carries behind its marker bits. */
  function Bits(b: Byte, marker: int): int {
    b as int - marker
  }

  /** The code point one character's bytes spell. */
  function PointOf(b: Text): int {
    if |b| == 1 then b[0]
    else if |b| == 2 then Bits(b[0], 0xC0) * 0x40 + Bits(b[1], 0x80)
    else if |b| == 3 then Bits(b[0], 0xE0) * 0x1000 + Bits(b[1], 0x80) * 0x40 + Bits(b[2], 0x80)
    else if |b| == 4 then
      Bits(b[0], 0xF0) * 0x4_0000 + Bits(b[1], 0x80) * 0x1000 + Bits(b[2], 0x80) * 0x40 + Bits(b[3], 0x80)
    else 0
  }

  /** The code points that UTF-8 bytes spell. */
  function CodePoints(bytes: Text): (r: seq<int>) {
    if bytes == [] || |bytes| < Lead(bytes[0]) then []
    else [PointOf(bytes[..Lead(bytes[0])])] + CodePoints(bytes[Lead(bytes[0])..])
  }

  lemma PointOfChar(c: char)
    ensures |Utf8Char(c)| == Lead(Utf8Char(c)[0]) && PointOf(Utf8Char(c)) == c as int
  {
    var n := c as int;
    assert n == n / 0x40 * 0x40 + n % 0x40;
    assert n / 0x40 == n / 0x1000 * 0x40 + n / 0x40 % 0x40;
    assert n / 0x1000 == n / 0x4_0000 * 0x40 + n / 0x1000 % 0x40;
  }

  lemma CodePointOfOne(c: char, rest: Text)
    ensures CodePoints(Utf8Char(c) + rest) == [c as int] + CodePoints(rest)
  {
    var bytes := Utf8Char(c) + rest;
    PointOfChar(c);
    assert bytes[..|Utf8Char(c)|] == Utf8Char(c) && bytes[|Utf8Char(c)|..] == rest;
  }

  /** Nothing is lost in the bytes: they spell the characters they came from. */
  lemma {:induction false} Utf8Spells(s: string)
    ensures |CodePoints(Utf8(s))| == |s|
    ensures forall i | 0 <= i < |s| :: CodePoints(Utf8(s))[i] == s[i] as int
  {
    if s != [] {
      Utf8Spells(s[1..]);
      CodePointOfOne(s[0], Utf8(s[1..]));
    }
  }

  const BACKSLASH := 0x5C as char
  const CHAR_SEPARATORS: set<char> := {'/', BACKSLASH, '?', '#'}

  lemma SeparatorBytes(c: char)
    ensures c in CHAR_SEPARATORS <==> c as int in SEPARATORS
    ensures c !in CHAR_SEPARATORS ==> Free(Utf8Char(c), SEPARATORS)
  {
  }

  /** A piece of the string is `..` exactly when a piece of its bytes is. */
  lemma {:induction false} DotDotInText(s: string)
    ensures HasDotDot(Utf8(s)) <==> ".." in Split(s, CHAR_SEPARATORS)
    decreases |s|
  {
    if i :| 0 <= i < |s| && s[i] in CHAR_SEPARATORS {
      var a, b := s[..i], s[i + 1..];
      assert s == a + [s[i]] + b;
      SeparatorBytes(s[i]);
      Utf8OfOne(s[i]);
      Utf8Concat(a, [s[i]]);
      Utf8Concat(a + [s[i]], b);
      HasDotDotAt(Utf8(a), s[i] as int, Utf8(b));
      SplitAt(a, s[i], b, CHAR_SEPARATORS);
      DotDotInText(a);
      DotDotInText(b);
    } else {
      SplitFree(s, CHAR_SEPARATORS);
      Utf8Free(s);
      SplitFree(Utf8(s), SEPARATORS);
      DotDotBytes(s);
    }
  }

  lemma {:induction false} Utf8Free(s: string)
    requires Free(s, CHAR_SEPARATORS)
    ensures Free(Utf8(s), SEPARATORS)
  {
    if s != [] {
      Utf8Free(s[1..]);
      SeparatorBytes(s[0]);
    }
  }

  lemma DotDotBytes(s: string)
    ensures Utf8(s) == [DOT, DOT] <==> s == ".."
  {
    Utf8Spells(s);
    Utf8Spells("..");
    Utf8OfOne('.');
    Utf8Concat(".", ".");
    assert "." + "." == "..";
    if Utf8(s) == [DOT, DOT] {
      assert |s| == 2 && s[0] as int == 0x2E && s[1] as int == 0x2E by {
        assert CodePoints(Utf8(s)) == CodePoints(Utf8(".."));
      }
    }
  }

  // ----- what a plan has to satisfy

  ghost predicate CleanTemplate(t: ApplicationTemplate) {
    forall v :: !IsViolation(t, v)
  }

  /** The rendered URL is on the allow-list, and no spelling of it climbs out of where it points. */
  ghost predicate InsideFence(config: Config, repoUrl: string) {
    AllowListed(config.allowedRepoUrls, repoUrl) && StaysInside(Utf8(repoUrl))
  }

  ghost predicate Plannable(config: Config, user: User, team: Option<Team>) {
    && team.Some? && team.value.che.Some?
    && var t := team.value.che.value;
    && t.mode == Ensure
    && CleanTemplate(t)
    && AllowListed(config.allowedProjects, t.project)
    && AllowListed(config.allowedRepoUrls, t.source.repoUrl)
    && var r := Rendering(t, config.applicationNamespace, UserBindings(user), user.namespace, user.values);
    && r.Some?
    && InsideFence(config, r.value.source.repoUrl)
  }

  /** One thing wrong with a team's template that no person can change. */
  ghost predicate IsTemplateViolation(config: Config, team: Team, v: PlanViolation) {
    && team.che.Some?
    && var t := team.che.value;
    match v
    case TemplateInvalid(name, violation) => name == team.name && IsViolation(t, violation)
    case ProjectNotAllowed(name, project) =>
      name == team.name && project == t.project && !AllowListed(config.allowedProjects, project)
    case RepoUrlNotAllowed(name, repoUrl) =>
      name == team.name && repoUrl == t.source.repoUrl && !AllowListed(config.allowedRepoUrls, repoUrl)
    case _ => false
  }

  ghost predicate SoundTemplate(config: Config, team: Team) {
    forall v :: !IsTemplateViolation(config, team, v)
  }

  lemma SoundTemplateMeans(config: Config, team: Team)
    requires team.che.Some?
    ensures var t := team.che.value;
            SoundTemplate(config, team) <==>
            && CleanTemplate(t)
            && AllowListed(config.allowedProjects, t.project)
            && AllowListed(config.allowedRepoUrls, t.source.repoUrl)
  {
    var t := team.che.value;
    if SoundTemplate(config, team) {
      assert !IsTemplateViolation(config, team, ProjectNotAllowed(team.name, t.project));
      assert !IsTemplateViolation(config, team, RepoUrlNotAllowed(team.name, t.source.repoUrl));
      forall v
        ensures !IsViolation(t, v)
      {
        assert !IsTemplateViolation(config, team, TemplateInvalid(team.name, v));
      }
    }
  }

  method TemplateViolations(config: Config, team: Team) returns (violations: seq<PlanViolation>)
    ensures forall v :: v in violations <==> IsTemplateViolation(config, team, v)
  {
    violations := [];
    if team.che.None? {
      return;
    }
    var t := team.che.value;
    var shape := ValidateShape(t);
    for i := 0 to |shape|
      invariant forall v :: v in violations <==>
                  v.TemplateInvalid? && v.team == team.name && v.violation in shape[..i]
    {
      assert shape[..i + 1] == shape[..i] + [shape[i]];
      violations := violations + [TemplateInvalid(team.name, shape[i])];
    }
    assert shape[..|shape|] == shape;
    if !AllowListed(config.allowedProjects, t.project) {
      violations := violations + [ProjectNotAllowed(team.name, t.project)];
    }
    if !AllowListed(config.allowedRepoUrls, t.source.repoUrl) {
      violations := violations + [RepoUrlNotAllowed(team.name, t.source.repoUrl)];
    }
  }

  /** Why a person gets no plan, the first reason met. */
  ghost predicate IsRefusal(config: Config, user: User, team: Option<Team>, v: PlanViolation) {
    if team.None? then v == WorkspaceWithoutTeam(user.username)
    else if team.value.che.None? then v == WorkspaceWithoutTemplate(user.username, team.value.name)
    else
      var t := team.value.che.value;
      if t.mode == Off then v == WorkspaceDisabledByTeam(user.username, team.value.name)
      else if !SoundTemplate(config, team.value) then IsTemplateViolation(config, team.value, v)
      else
        match Rendering(t, config.applicationNamespace, UserBindings(user), user.namespace, user.values)
        case None => v.RenderFailed? && v.user == user.username && IsRenderFailure(t, user, v.error)
        case Some(app) =>
          v == RepoUrlNotAllowed(team.value.name, app.source.repoUrl) && !InsideFence(config, app.source.repoUrl)
  }

  ghost predicate IsRenderFailure(t: ApplicationTemplate, user: User, e: TemplateError) {
    match RenderNamespace(Chosen(user.namespace, t.destination.namespace), UserBindings(user))
    case Err(error) => e == error
    case Ok(namespace) => RenderError(t, user.values, UserBindings(user)[USER_NAMESPACE := namespace], e)
  }

  /** A plan exists exactly when every fence lets it through, and is then the rendering itself. */
  method PlanApplication(config: Config, user: User, team: Option<Team>)
    returns (r: Result<RenderedApplication, seq<PlanViolation>>)
    ensures r.Ok? <==> Plannable(config, user, team)
    ensures r.Ok? ==> Rendering(team.value.che.value, config.applicationNamespace, UserBindings(user),
                                user.namespace, user.values) == Some(r.value)
    ensures r.Ok? ==> InsideFence(config, r.value.source.repoUrl)
    ensures r.Err? ==> r.error != [] && forall v | v in r.error :: IsRefusal(config, user, team, v)
    ensures r.Err? && team.Some? && team.value.che.Some? && team.value.che.value.mode == Ensure ==>
              forall v | IsTemplateViolation(config, team.value, v) :: v in r.error
  {
    if team.None? {
      return Err([WorkspaceWithoutTeam(user.username)]);
    }
    if team.value.che.None? {
      return Err([WorkspaceWithoutTemplate(user.username, team.value.name)]);
    }
    var t := team.value.che.value;
    if t.mode == Off {
      return Err([WorkspaceDisabledByTeam(user.username, team.value.name)]);
    }
    var violations := TemplateViolations(config, team.value);
    SoundTemplateMeans(config, team.value);
    if violations != [] {
      assert IsTemplateViolation(config, team.value, violations[0]);
      return Err(violations);
    }
    var rendered := RenderApplication(t, config.applicationNamespace, UserBindings(user), user.namespace, user.values);
    if rendered.Err? {
      return Err([RenderFailed(user.username, rendered.error)]);
    }
    var repoUrl := rendered.value.source.repoUrl;
    var climbs := ClimbsOut(Utf8(repoUrl));
    if climbs || !AllowListed(config.allowedRepoUrls, repoUrl) {
      return Err([RepoUrlNotAllowed(team.value.name, repoUrl)]);
    }
    return Ok(rendered.value);
  }

  /**
   * Whatever a person is called, the repository Argo CD is pointed at is allow-listed and never shows a
   * `..` segment to any server, however much of it that server decodes; the namespace is a label.
   */
  lemma PlannedUrlNeverClimbs(config: Config, user: User, team: Option<Team>, app: RenderedApplication,
                              chain: seq<Text>)
    requires Plannable(config, user, team)
    requires Rendering(team.value.che.value, config.applicationNamespace, UserBindings(user),
                       user.namespace, user.values) == Some(app)
    requires DecodingChain(chain) && chain[0] == Utf8(app.source.repoUrl)
    ensures team.value.che.value.mode == Ensure
    ensures AllowListed(config.allowedProjects, app.project) && AllowListed(config.allowedRepoUrls, app.source.repoUrl)
    ensures ".." !in Split(app.source.repoUrl, {'/', BACKSLASH, '?', '#'})
    ensures !HasDotDot(chain[|chain| - 1])
    ensures IsDnsLabel(app.destination.namespace)
  {
    RenderingParts(team.value.che.value, config.applicationNamespace, UserBindings(user), user.namespace,
                   user.values, app);
    NoDecodingClimbs(Utf8(app.source.repoUrl), chain);
    DotDotInText(app.source.repoUrl);
    assert Passes(Utf8(app.source.repoUrl), 0) == Utf8(app.source.repoUrl);
  }

  /** With a plan's team checked and no overlay of the person's own, only the namespace can still refuse. */
  lemma OnlyTheNamespaceCanRefuse(config: Config, user: User, team: Team)
    requires team.che.Some? && CleanTemplate(team.che.value)
    requires user.namespace.None? && user.values.None?
    ensures var r := Rendering(team.che.value, config.applicationNamespace, UserBindings(user), None, None);
            var ns := RenderNamespace(team.che.value.destination.namespace, UserBindings(user));
            && (r.Some? <==> ns.Ok?)
            && (ns.Err? ==> ns.error.IllegalNamespace?)
  {
    CleanTemplatesRender(team.che.value, config.applicationNamespace, UserBindings(user), None, None);
  }
}
