/** Teams in resolution order, and `dwoc-pin` resolved against them and validated afterwards. */
module DwocPin {
  import opened Bytes
  import opened Catalog

  type Key = string

  datatype CatalogEntry = CatalogEntry(key: Key, target: string)

  /** A team's own catalogue entries and default. */
  datatype TeamPin = TeamPin(catalog: seq<CatalogEntry>, default: Key)

  datatype Team = Team(name: string, priority: int, pin: Option<TeamPin>)

  datatype Config = Config(catalog: seq<CatalogEntry>, default: Key)

  datatype Grant = Grant(allowed: seq<Key>, default: Key)

  datatype Resolved = Resolved(catalog: seq<CatalogEntry>, default: Key, grants: map<string, Grant>)

  function KeyOf(e: CatalogEntry): Key {
    e.key
  }

  // ----- the resolution order

  /** Rust's string order. */
  predicate NameLeq(a: string, b: string) {
    a == [] || (b != [] && (a[0] < b[0] || (a[0] == b[0] && NameLeq(a[1..], b[1..]))))
  }

  /** Priority first, then name. */
  predicate Before(a: Team, b: Team) {
    a.priority < b.priority || (a.priority == b.priority && NameLeq(a.name, b.name))
  }

  lemma {:induction false} NameTotal(a: string, b: string)
    ensures NameLeq(a, b) || NameLeq(b, a)
    ensures NameLeq(a, b) && NameLeq(b, a) ==> a == b
  {
    if a != [] && b != [] {
      NameTotal(a[1..], b[1..]);
      assert a == [a[0]] + a[1..] && b == [b[0]] + b[1..];
    }
  }

  /** The order of names: the first character that differs decides, and a prefix comes first. */
  lemma {:induction false} NameOrder(common: string, a: string, b: string)
    ensures NameLeq(common, common + b)
    ensures a != [] && b != [] && a[0] != b[0] ==> (NameLeq(common + a, common + b) <==> a[0] < b[0])
    decreases common
  {
    if common != [] {
      NameOrder(common[1..], a, b);
      assert (common + a)[1..] == common[1..] + a && (common + b)[1..] == common[1..] + b;
    } else {
      assert common + a == a && common + b == b;
    }
  }

  lemma {:induction false} NameTransitive(a: string, b: string, c: string)
    requires NameLeq(a, b) && NameLeq(b, c)
    ensures NameLeq(a, c)
  {
    if a != [] && a[0] == b[0] == c[0] {
      NameTransitive(a[1..], b[1..], c[1..]);
    }
  }

  function Insert(t: Team, sorted: seq<Team>): (r: seq<Team>)
    ensures multiset(r) == multiset([t]) + multiset(sorted)
  {
    if sorted == [] then [t]
    else if Before(t, sorted[0]) then [t] + sorted
    else
      assert sorted == [sorted[0]] + sorted[1..];
      [sorted[0]] + Insert(t, sorted[1..])
  }

  /** The stable sort by `(priority, name)`. */
  function ResolutionOrder(teams: seq<Team>): (r: seq<Team>)
    ensures multiset(r) == multiset(teams)
  {
    if teams == [] then []
    else
      assert teams == [teams[0]] + teams[1..];
      Insert(teams[0], ResolutionOrder(teams[1..]))
  }

  predicate Sorted(teams: seq<Team>) {
    forall i, j | 0 <= i < j < |teams| :: Before(teams[i], teams[j])
  }

  lemma SortedCons(t: Team, teams: seq<Team>)
    requires Sorted(teams) && (teams != [] ==> Before(t, teams[0]))
    ensures Sorted([t] + teams)
  {
    forall j | 0 <= j < |teams|
      ensures Before(t, teams[j])
    {
      if j > 0 {
        BeforeTransitive(t, teams[0], teams[j]);
      }
    }
  }

  lemma BeforeTransitive(a: Team, b: Team, c: Team)
    requires Before(a, b) && Before(b, c)
    ensures Before(a, c)
  {
    if a.priority == b.priority == c.priority {
      NameTransitive(a.name, b.name, c.name);
    }
  }

  lemma {:induction false} InsertSorts(t: Team, sorted: seq<Team>)
    requires Sorted(sorted)
    ensures Sorted(Insert(t, sorted))
  {
    if sorted == [] {
    } else if Before(t, sorted[0]) {
      SortedCons(t, sorted);
    } else {
      NameTotal(t.name, sorted[0].name);
      InsertSorts(t, sorted[1..]);
      SortedCons(sorted[0], Insert(t, sorted[1..]));
    }
  }

  /** By priority, the lower number first, and then by name. */
  lemma {:induction false} OrderIsSorted(teams: seq<Team>)
    ensures Sorted(ResolutionOrder(teams))
    ensures var order := ResolutionOrder(teams);
            forall i, j | 0 <= i < j < |order| ::
              || order[i].priority < order[j].priority
              || (order[i].priority == order[j].priority && NameLeq(order[i].name, order[j].name))
  {
    if teams != [] {
      OrderIsSorted(teams[1..]);
      InsertSorts(teams[0], ResolutionOrder(teams[1..]));
    }
  }

  /** The teams of one priority and one name, in the order they stand. */
  function Ranked(teams: seq<Team>, priority: int, name: string): (r: seq<Team>) {
    if teams == [] then [] else RankedOne(teams[0], priority, name) + Ranked(teams[1..], priority, name)
  }

  function RankedOne(t: Team, priority: int, name: string): seq<Team> {
    if t.priority == priority && t.name == name then [t] else []
  }

  lemma RankedCons(t: Team, teams: seq<Team>, priority: int, name: string)
    ensures Ranked([t] + teams, priority, name) == RankedOne(t, priority, name) + Ranked(teams, priority, name)
  {
    assert ([t] + teams)[1..] == teams;
  }

  lemma NotBeforeDiffers(t: Team, u: Team)
    requires !Before(t, u)
    ensures t.priority != u.priority || t.name != u.name
  {
    NameTotal(t.name, t.name);
  }

  lemma Swap(a: seq<Team>, b: seq<Team>, c: seq<Team>)
    requires a == [] || b == []
    ensures a + (b + c) == b + (a + c)
  {
  }

  lemma {:induction false} InsertKeepsRanked(t: Team, sorted: seq<Team>, priority: int, name: string)
    ensures Ranked(Insert(t, sorted), priority, name) == RankedOne(t, priority, name) + Ranked(sorted, priority, name)
  {
    if sorted == [] || Before(t, sorted[0]) {
      RankedCons(t, sorted, priority, name);
      assert [t] + [] == [t];
    } else {
      InsertKeepsRanked(t, sorted[1..], priority, name);
      RankedCons(sorted[0], Insert(t, sorted[1..]), priority, name);
      NotBeforeDiffers(t, sorted[0]);
      Swap(RankedOne(sorted[0], priority, name), RankedOne(t, priority, name), Ranked(sorted[1..], priority, name));
    }
  }

  /** The sort is stable: teams it cannot tell apart stay in the order they were listed. */
  lemma {:induction false} OrderIsStable(teams: seq<Team>, priority: int, name: string)
    ensures Ranked(ResolutionOrder(teams), priority, name) == Ranked(teams, priority, name)
  {
    if teams != [] {
      OrderIsStable(teams[1..], priority, name);
      InsertKeepsRanked(teams[0], ResolutionOrder(teams[1..]), priority, name);
    }
  }

  ghost predicate UniqueNames(teams: multiset<Team>) {
    forall a, b | a in teams && b in teams && a.name == b.name :: a == b
  }

  /** Two sorted arrangements of the same teams are the same list. */
  lemma {:induction false} OneSortedOrder(a: seq<Team>, b: seq<Team>)
    requires Sorted(a) && Sorted(b) && multiset(a) == multiset(b) && UniqueNames(multiset(a))
    ensures a == b
  {
    if a == [] {
      assert multiset(b) == multiset{};
      assert b == [];
    } else {
      assert |b| == |multiset(b)| == |multiset(a)| == |a|;
      SameHead(a, b);
      assert a == [a[0]] + a[1..] && b == [b[0]] + b[1..];
      assert multiset(a[1..]) == multiset(a) - multiset([a[0]]);
      assert multiset(b[1..]) == multiset(b) - multiset([b[0]]);
      OneSortedOrder(a[1..], b[1..]);
    }
  }

  lemma SameHead(a: seq<Team>, b: seq<Team>)
    requires Sorted(a) && Sorted(b) && multiset(a) == multiset(b) && UniqueNames(multiset(a)) && a != [] && b != []
    ensures a[0] == b[0]
  {
    assert a[0] in multiset(b) && b[0] in multiset(a);
    var i :| 0 <= i < |b| && b[i] == a[0];
    var j :| 0 <= j < |a| && a[j] == b[0];
    if i > 0 && j > 0 {
      assert Before(b[0], a[0]) && Before(a[0], b[0]);
      NameTotal(a[0].name, b[0].name);
    }
  }

  /** However the API server lists the teams, they resolve in one order. */
  lemma OrderIgnoresArrangement(a: seq<Team>, b: seq<Team>)
    requires multiset(a) == multiset(b) && UniqueNames(multiset(a))
    ensures ResolutionOrder(a) == ResolutionOrder(b)
  {
    OrderIsSorted(a);
    OrderIsSorted(b);
    OneSortedOrder(ResolutionOrder(a), ResolutionOrder(b));
  }

  // ----- resolution

  function Blocks(order: seq<Team>): (blocks: seq<(string, seq<CatalogEntry>)>) {
    if order == [] then []
    else (if order[0].pin.Some? then [(order[0].name, order[0].pin.value.catalog)] else []) + Blocks(order[1..])
  }

  function Keys(entries: seq<CatalogEntry>): (keys: seq<Key>)
    ensures |keys| == |entries|
    ensures forall i | 0 <= i < |entries| :: keys[i] == entries[i].key
  {
    seq(|entries|, i requires 0 <= i < |entries| => entries[i].key)
  }

  /** What a team reaches: its own entries, and the cluster default in any case. */
  function GrantOf(pin: TeamPin, clusterDefault: Key): (g: Grant) {
    var own := Keys(pin.catalog);
    Grant(if clusterDefault in own then own else own + [clusterDefault], pin.default)
  }

  /** Collected into a map: of two teams with one name, the later one stays. */
  function Grants(order: seq<Team>, clusterDefault: Key): (grants: map<string, Grant>) {
    if order == [] then map[]
    else
      var last := order[|order| - 1];
      var before := Grants(order[..|order| - 1], clusterDefault);
      if last.pin.Some? then before[last.name := GrantOf(last.pin.value, clusterDefault)] else before
  }

  /** The resolution of teams already in order. */
  function ResolutionIn(config: Config, order: seq<Team>): (r: (Resolved, seq<Conflict<Key>>)) {
    var offers := Flatten(Blocks(order));
    var catalog := Merged(config.catalog, offers, KeyOf);
    (Resolved(catalog, config.default, Grants(order, config.default)), Losers(catalog, offers, KeyOf))
  }

  function Resolution(config: Config, teams: seq<Team>): (r: (Resolved, seq<Conflict<Key>>)) {
    ResolutionIn(config, ResolutionOrder(teams))
  }

  method CollectBlocks(order: seq<Team>) returns (blocks: seq<(string, seq<CatalogEntry>)>)
    ensures blocks == Blocks(order)
  {
    blocks := [];
    assert order[..0] == [];
    for i := 0 to |order|
      invariant blocks == Blocks(order[..i])
    {
      BlocksSnoc(order[..i], order[i]);
      assert order[..i + 1] == order[..i] + [order[i]];
      if order[i].pin.Some? {
        blocks := blocks + [(order[i].name, order[i].pin.value.catalog)];
      }
    }
    assert order[..|order|] == order;
  }

  lemma {:induction false} BlocksSnoc(order: seq<Team>, team: Team)
    ensures Blocks(order + [team]) ==
            if team.pin.Some? then Blocks(order) + [(team.name, team.pin.value.catalog)] else Blocks(order)
  {
    if order != [] {
      assert (order + [team])[1..] == order[1..] + [team];
      BlocksSnoc(order[1..], team);
    } else {
      assert [team][1..] == [];
    }
  }

  /** One team's grant: its own keys, and the cluster default pushed behind them unless it is there. */
  method CollectGrant(pin: TeamPin, clusterDefault: Key) returns (grant: Grant)
    ensures grant == GrantOf(pin, clusterDefault)
  {
    var allowed: seq<Key> := [];
    for i := 0 to |pin.catalog|
      invariant allowed == Keys(pin.catalog)[..i]
    {
      allowed := allowed + [pin.catalog[i].key];
    }
    if clusterDefault !in allowed {
      allowed := allowed + [clusterDefault];
    }
    return Grant(allowed, pin.default);
  }

  method CollectGrants(order: seq<Team>, clusterDefault: Key) returns (grants: map<string, Grant>)
    ensures grants == Grants(order, clusterDefault)
  {
    grants := map[];
    for i := 0 to |order|
      invariant grants == Grants(order[..i], clusterDefault)
    {
      assert order[..i + 1][..i] == order[..i];
      if order[i].pin.Some? {
        var grant := CollectGrant(order[i].pin.value, clusterDefault);
        grants := grants[order[i].name := grant];
      }
    }
    assert order[..|order|] == order;
  }

  method Resolve(config: Config, teams: seq<Team>) returns (resolved: Resolved, violations: seq<Conflict<Key>>)
    ensures (resolved, violations) == Resolution(config, teams)
  {
    var order := ResolutionOrder(teams);
    var blocks := CollectBlocks(order);
    var catalog, conflicts := MergeCatalogs(config.catalog, blocks, KeyOf);
    var grants := CollectGrants(order, config.default);
    return Resolved(catalog, config.default, grants), conflicts;
  }

  /** Catalogue, grants and conflicts do not depend on how the teams were listed. */
  lemma ResolutionIgnoresArrangement(config: Config, a: seq<Team>, b: seq<Team>)
    requires multiset(a) == multiset(b) && UniqueNames(multiset(a))
    ensures Resolution(config, a) == Resolution(config, b)
  {
    OrderIgnoresArrangement(a, b);
  }

  // ----- validation

  datatype Violation =
    | DuplicateCatalogKey(key: Key)
    | DefaultNotInCatalog(key: Key)
    | GrantAllowedEmpty(team: string)
    | GrantAllowedUnknownKey(team: string, key: Key)
    | GrantDefaultOutsideAllowed(team: string, default: Key)
    | GrantNamesUndeclaredTeam(team: string)

  predicate Contains(catalog: seq<CatalogEntry>, key: Key) {
    exists i | 0 <= i < |catalog| :: catalog[i].key == key
  }

  predicate Duplicated(catalog: seq<CatalogEntry>, key: Key) {
    exists i, j | 0 <= i < j < |catalog| :: catalog[i].key == key && catalog[j].key == key
  }

  /** The violations of one grant. */
  ghost predicate GrantViolation(catalog: seq<CatalogEntry>, declared: bool, team: string, grant: Grant, v: Violation) {
    match v
    case GrantNamesUndeclaredTeam(t) => t == team && !declared
    case GrantAllowedEmpty(t) => t == team && grant.allowed == []
    case GrantAllowedUnknownKey(t, k) => t == team && k in grant.allowed && !Contains(catalog, k)
    case GrantDefaultOutsideAllowed(t, d) => t == team && d == grant.default && d !in grant.allowed
    case _ => false
  }

  ghost predicate IsViolation(r: Resolved, teams: seq<string>, v: Violation) {
    match v
    case DuplicateCatalogKey(k) => Duplicated(r.catalog, k)
    case DefaultNotInCatalog(k) => k == r.default && !Contains(r.catalog, k)
    case _ => v.team in r.grants && GrantViolation(r.catalog, v.team in teams, v.team, r.grants[v.team], v)
  }

  method CheckKeys(catalog: seq<CatalogEntry>) returns (violations: seq<Violation>)
    ensures forall v :: v in violations <==> v.DuplicateCatalogKey? && Duplicated(catalog, v.key)
  {
    violations := [];
    var seen: set<Key> := {};
    for i := 0 to |catalog|
      invariant forall k :: k in seen <==> exists j | 0 <= j < i :: catalog[j].key == k
      invariant forall v :: v in violations <==> v.DuplicateCatalogKey? && Duplicated(catalog[..i], v.key)
    {
      var key := catalog[i].key;
      forall k
        ensures Duplicated(catalog[..i + 1], k) <==> Duplicated(catalog[..i], k) || (k == key && k in seen)
      {
        DuplicatedSnoc(catalog, i, k);
      }
      if key in seen {
        violations := violations + [DuplicateCatalogKey(key)];
      }
      seen := seen + {key};
    }
    assert catalog[..|catalog|] == catalog;
  }

  lemma DuplicatedSnoc(catalog: seq<CatalogEntry>, i: nat, k: Key)
    requires i < |catalog|
    ensures Duplicated(catalog[..i + 1], k) <==>
            Duplicated(catalog[..i], k) || (k == catalog[i].key && exists j | 0 <= j < i :: catalog[j].key == k)
  {
  }

  method CheckGrant(catalog: seq<CatalogEntry>, declared: bool, team: string, grant: Grant)
    returns (violations: seq<Violation>)
    ensures forall v :: v in violations <==> GrantViolation(catalog, declared, team, grant, v)
  {
    violations := [];
    if !declared {
      violations := violations + [GrantNamesUndeclaredTeam(team)];
    }
    if grant.allowed == [] {
      violations := violations + [GrantAllowedEmpty(team)];
    }
    ghost var shape := violations;
    for i := 0 to |grant.allowed|
      invariant forall v :: v in violations <==>
                  v in shape || (v.GrantAllowedUnknownKey? && v.team == team
                                 && v.key in grant.allowed[..i] && !Contains(catalog, v.key))
    {
      assert grant.allowed[..i + 1] == grant.allowed[..i] + [grant.allowed[i]];
      if !Contains(catalog, grant.allowed[i]) {
        violations := violations + [GrantAllowedUnknownKey(team, grant.allowed[i])];
      }
    }
    assert grant.allowed[..|grant.allowed|] == grant.allowed;
    if grant.default !in grant.allowed {
      violations := violations + [GrantDefaultOutsideAllowed(team, grant.default)];
    }
  }

  method CheckGrants(r: Resolved, teams: seq<string>) returns (violations: seq<Violation>)
    ensures forall v :: v in violations <==>
              exists team | team in r.grants :: GrantViolation(r.catalog, team in teams, team, r.grants[team], v)
  {
    violations := [];
    var left := r.grants.Keys;
    while left != {}
      invariant left <= r.grants.Keys
      invariant forall v :: v in violations <==>
                  exists team | team in r.grants.Keys - left ::
                    GrantViolation(r.catalog, team in teams, team, r.grants[team], v)
    {
      var team :| team in left;
      var found := CheckGrant(r.catalog, team in teams, team, r.grants[team]);
      violations := violations + found;
      left := left - {team};
    }
  }

  /** Reports every violation of a resolved configuration, and nothing else. */
  method Validate(r: Resolved, teams: seq<string>) returns (violations: seq<Violation>)
    ensures forall v :: v in violations <==> IsViolation(r, teams, v)
  {
    var keys := CheckKeys(r.catalog);
    var default := if Contains(r.catalog, r.default) then [] else [DefaultNotInCatalog(r.default)];
    var grants := CheckGrants(r, teams);
    violations := keys + default + grants;
    forall v
      ensures v in violations <==> IsViolation(r, teams, v)
    {
      assert v in violations <==> v in keys || v in default || v in grants;
    }
  }

  ghost predicate SoundGrant(catalog: seq<CatalogEntry>, grant: Grant) {
    && grant.allowed != [] && grant.default in grant.allowed
    && forall k | k in grant.allowed :: exists i | 0 <= i < |catalog| :: catalog[i].key == k
  }

  /** A configuration nothing is reported about: keys once each, the default among them, every grant in order. */
  ghost predicate SoundConfig(r: Resolved, teams: seq<string>) {
    && (forall i, j | 0 <= i < j < |r.catalog| :: r.catalog[i].key != r.catalog[j].key)
    && (exists i | 0 <= i < |r.catalog| :: r.catalog[i].key == r.default)
    && forall team | team in r.grants :: team in teams && SoundGrant(r.catalog, r.grants[team])
  }

  lemma SilentMeansSoundGrant(r: Resolved, teams: seq<string>, team: string)
    requires team in r.grants && forall v :: !IsViolation(r, teams, v)
    ensures team in teams && SoundGrant(r.catalog, r.grants[team])
  {
    var grant := r.grants[team];
    assert !IsViolation(r, teams, GrantNamesUndeclaredTeam(team));
    assert !IsViolation(r, teams, GrantAllowedEmpty(team));
    assert !IsViolation(r, teams, GrantDefaultOutsideAllowed(team, grant.default));
    forall k | k in grant.allowed
      ensures Contains(r.catalog, k)
    {
      assert !IsViolation(r, teams, GrantAllowedUnknownKey(team, k));
    }
  }

  lemma SilentMeansSoundCatalog(r: Resolved, teams: seq<string>)
    requires forall v :: !IsViolation(r, teams, v)
    ensures forall i, j | 0 <= i < j < |r.catalog| :: r.catalog[i].key != r.catalog[j].key
    ensures Contains(r.catalog, r.default)
  {
    assert !IsViolation(r, teams, DefaultNotInCatalog(r.default));
    forall i, j | 0 <= i < j < |r.catalog|
      ensures r.catalog[i].key != r.catalog[j].key
    {
      assert !IsViolation(r, teams, DuplicateCatalogKey(r.catalog[i].key));
    }
  }

  /** Validation is silent exactly about configurations that are in order. */
  lemma ValidationIsExact(r: Resolved, teams: seq<string>)
    ensures (forall v :: !IsViolation(r, teams, v)) <==> SoundConfig(r, teams)
  {
    if forall v :: !IsViolation(r, teams, v) {
      SilentMeansSoundCatalog(r, teams);
      forall team | team in r.grants
        ensures team in teams && SoundGrant(r.catalog, r.grants[team])
      {
        SilentMeansSoundGrant(r, teams, team);
      }
    }
  }

  // ----- who defines a key

  predicate Defines(team: Team, k: Key) {
    team.pin.Some? && Contains(team.pin.value.catalog, k)
  }

  lemma EntriesOfConcat(a: seq<Offer<CatalogEntry>>, b: seq<Offer<CatalogEntry>>)
    ensures Entries(a + b) == Entries(a) + Entries(b)
  {
  }

  lemma EntriesOfBlock(team: string, entries: seq<CatalogEntry>)
    ensures Entries(OffersOf((team, entries))) == entries
  {
  }

  lemma BlocksCons(order: seq<Team>)
    requires order != []
    ensures order[0].pin.None? ==> Flatten(Blocks(order)) == Flatten(Blocks(order[1..]))
    ensures order[0].pin.Some? ==>
              var own := OffersOf((order[0].name, order[0].pin.value.catalog));
              Flatten(Blocks(order)) == own + Flatten(Blocks(order[1..]))
  {
    var blocks := Blocks(order);
    if order[0].pin.Some? {
      assert blocks[1..] == Blocks(order[1..]);
    } else {
      assert blocks == Blocks(order[1..]);
    }
  }

  /** The first offer of a key is that of the first team that defines it. */
  lemma {:induction false} FirstOffer(order: seq<Team>, k: Key) returns (i: nat)
    ensures i <= |order| && forall j | 0 <= j < i :: !Defines(order[j], k)
    ensures i < |order| ==> Defines(order[i], k)
    ensures First(Entries(Flatten(Blocks(order))), KeyOf, k) ==
            if i < |order| then First(order[i].pin.value.catalog, KeyOf, k) else None
  {
    i := 0;
    if order != [] {
      BlocksCons(order);
      if order[0].pin.Some? {
        var own, others := OffersOf((order[0].name, order[0].pin.value.catalog)), Flatten(Blocks(order[1..]));
        EntriesOfConcat(own, others);
        EntriesOfBlock(order[0].name, order[0].pin.value.catalog);
        FirstOfConcat(order[0].pin.value.catalog, Entries(others), KeyOf, k);
        FirstIsContains(order[0].pin.value.catalog, k);
      }
      if !Defines(order[0], k) {
        i := FirstOffer(order[1..], k);
        i := i + 1;
      }
    }
  }

  /**
   * Who says what a key means: the cluster if it says anything, and else the first team in resolution
   * order that does, by its first entry for the key.
   */
  lemma FirstTeamWins(config: Config, teams: seq<Team>, k: Key) returns (i: nat)
    ensures var order, catalog := ResolutionOrder(teams), Resolution(config, teams).0.catalog;
            && i <= |order| && (forall j | 0 <= j < i :: !Defines(order[j], k))
            && (i < |order| ==> Defines(order[i], k))
            && First(catalog, KeyOf, k) ==
               if Contains(config.catalog, k) then First(config.catalog, KeyOf, k)
               else if i < |order| then First(order[i].pin.value.catalog, KeyOf, k)
               else None
  {
    var order := ResolutionOrder(teams);
    i := FirstOffer(order, k);
    FirstDefinitionWins(config.catalog, Flatten(Blocks(order)), KeyOf, k);
    FirstOfConcat(config.catalog, Entries(Flatten(Blocks(order))), KeyOf, k);
    FirstIsContains(config.catalog, k);
  }

  lemma {:induction false} LosersAre(winners: seq<CatalogEntry>, offers: seq<Offer<CatalogEntry>>, t: string, k: Key)
    ensures Conflict(t, k) in Losers(winners, offers, KeyOf) <==>
            exists e :: Offer(t, e) in offers && e.key == k && First(winners, KeyOf, k) != Some(e)
  {
    if offers != [] {
      LosersAre(winners, offers[1..], t, k);
      assert forall o :: o in offers <==> o == offers[0] || o in offers[1..];
      if offers[0].team == t && offers[0].entry.key == k {
        assert offers[0] == Offer(t, offers[0].entry);
      }
    }
  }

  lemma OfferedByBlock(team: string, entries: seq<CatalogEntry>, t: string, e: CatalogEntry)
    ensures Offer(t, e) in OffersOf((team, entries)) <==> t == team && e in entries
  {
    if t == team && e in entries {
      var j :| 0 <= j < |entries| && entries[j] == e;
      assert OffersOf((team, entries))[j] == Offer(t, e);
    }
  }

  lemma {:induction false} OfferedBy(order: seq<Team>, t: string, e: CatalogEntry)
    ensures Offer(t, e) in Flatten(Blocks(order)) <==>
            exists team :: team in order && team.name == t && team.pin.Some? && e in team.pin.value.catalog
  {
    if order != [] {
      OfferedBy(order[1..], t, e);
      BlocksCons(order);
      assert forall team :: team in order <==> team == order[0] || team in order[1..];
      if order[0].pin.Some? {
        OfferedByBlock(order[0].name, order[0].pin.value.catalog, t, e);
      }
    }
  }

  /** `team`, named `t`, offers for `k` something other than what `k` means in the end. */
  ghost predicate Contests(team: Team, t: string, k: Key, winner: Option<CatalogEntry>) {
    && team.name == t && team.pin.Some?
    && exists e :: e in team.pin.value.catalog && e.key == k && winner != Some(e)
  }

  /** Exactly the teams that offer something else for a key are reported for it. */
  lemma ConflictsAreTheLosingTeams(config: Config, teams: seq<Team>, t: string, k: Key)
    ensures var (resolved, conflicts) := Resolution(config, teams);
            Conflict(t, k) in conflicts <==>
            exists team :: team in teams && Contests(team, t, k, First(resolved.catalog, KeyOf, k))
  {
    var order := ResolutionOrder(teams);
    var winner := First(Resolution(config, teams).0.catalog, KeyOf, k);
    LosersAre(Resolution(config, teams).0.catalog, Flatten(Blocks(order)), t, k);
    forall e
      ensures Offer(t, e) in Flatten(Blocks(order)) <==>
              exists team :: team in teams && team.name == t && team.pin.Some? && e in team.pin.value.catalog
    {
      OfferedBy(order, t, e);
      assert forall team :: team in order <==> team in multiset(order);
      assert forall team :: team in teams <==> team in multiset(teams);
    }
  }

  // ----- what resolution leaves for validation to find

  lemma {:induction false} GrantsFrom(order: seq<Team>, clusterDefault: Key, team: string) returns (i: nat)
    requires team in Grants(order, clusterDefault)
    ensures i < |order| && order[i].name == team && order[i].pin.Some?
    ensures forall j | i < j < |order| :: !(order[j].name == team && order[j].pin.Some?)
    ensures Grants(order, clusterDefault)[team] == GrantOf(order[i].pin.value, clusterDefault)
    decreases |order|
  {
    var last := |order| - 1;
    if order[last].pin.Some? && order[last].name == team {
      i := last;
    } else {
      i := GrantsFrom(order[..last], clusterDefault, team);
    }
  }

  /** Exactly the teams with a block of their own have a grant. */
  lemma {:induction false} GrantedTeams(order: seq<Team>, clusterDefault: Key, team: string)
    ensures team in Grants(order, clusterDefault) <==>
            exists i | 0 <= i < |order| :: order[i].name == team && order[i].pin.Some?
    decreases |order|
  {
    if order != [] {
      GrantedTeams(order[..|order| - 1], clusterDefault, team);
    }
  }

  lemma FirstIsContains(catalog: seq<CatalogEntry>, key: Key)
    ensures Contains(catalog, key) <==> First(catalog, KeyOf, key).Some?
  {
  }

  /** The entry at place `j` of team `i` is among the offers. */
  lemma {:induction false} OfferOfTeam(order: seq<Team>, i: nat, j: nat) returns (n: nat)
    requires i < |order| && order[i].pin.Some? && j < |order[i].pin.value.catalog|
    ensures n < |Flatten(Blocks(order))|
    ensures Flatten(Blocks(order))[n].entry == order[i].pin.value.catalog[j]
  {
    var blocks := Blocks(order);
    if order[0].pin.Some? {
      assert blocks[1..] == Blocks(order[1..]);
    } else {
      assert blocks == Blocks(order[1..]);
    }
    if i == 0 {
      n := j;
    } else {
      n := OfferOfTeam(order[1..], i - 1, j);
      if order[0].pin.Some? {
        n := n + |OffersOf(blocks[0])|;
      }
    }
  }

  /** Every key a team declares is in the merged catalogue. */
  lemma TeamKeyIsCatalogued(config: Config, order: seq<Team>, i: nat, j: nat)
    requires i < |order| && order[i].pin.Some? && j < |order[i].pin.value.catalog|
    ensures Contains(ResolutionIn(config, order).0.catalog, order[i].pin.value.catalog[j].key)
  {
    var n := OfferOfTeam(order, i, j);
    OfferedKeyIsDefined(config.catalog, Flatten(Blocks(order)), KeyOf, n);
    FirstIsContains(ResolutionIn(config, order).0.catalog, order[i].pin.value.catalog[j].key);
  }

  /** A duplicate key in the resolved catalogue is one the cluster catalogue came with, and the other way round. */
  lemma DuplicatesAreTheClusters(config: Config, order: seq<Team>, k: Key)
    ensures Duplicated(ResolutionIn(config, order).0.catalog, k) <==> Duplicated(config.catalog, k)
  {
    var offers := Flatten(Blocks(order));
    var catalog := Merged(config.catalog, offers, KeyOf);
    ClusterIsPrefix(config.catalog, offers, KeyOf);
    NoDuplicateAdded(config.catalog, offers, KeyOf, |config.catalog|);
    if Duplicated(catalog, k) {
      var i, j :| 0 <= i < j < |catalog| && catalog[i].key == k && catalog[j].key == k;
      assert KeyOf(catalog[i]) == KeyOf(catalog[j]);
      assert config.catalog[i].key == k && config.catalog[j].key == k;
    }
    if Duplicated(config.catalog, k) {
      var i, j :| 0 <= i < j < |config.catalog| && config.catalog[i].key == k && config.catalog[j].key == k;
      assert catalog[i].key == k && catalog[j].key == k;
    }
  }

  function Names(teams: seq<Team>): (names: seq<string>)
    ensures |names| == |teams|
    ensures forall i | 0 <= i < |teams| :: names[i] == teams[i].name
  {
    seq(|teams|, i requires 0 <= i < |teams| => teams[i].name)
  }

  lemma AllowedKeys(pin: TeamPin, clusterDefault: Key, key: Key)
    ensures key in GrantOf(pin, clusterDefault).allowed <==> Contains(pin.catalog, key) || key == clusterDefault
  {
  }

  /** Where a resolved grant comes from, the last team of its name, and what it allows. */
  lemma GrantOrigin(order: seq<Team>, clusterDefault: Key, team: string, key: Key) returns (i: nat)
    requires team in Grants(order, clusterDefault)
    ensures var grant := Grants(order, clusterDefault)[team];
            && i < |order| && order[i].name == team && order[i].pin.Some?
            && (forall j | i < j < |order| :: !(order[j].name == team && order[j].pin.Some?))
            && grant.default == order[i].pin.value.default
            && Keys(order[i].pin.value.catalog) <= grant.allowed
            && |grant.allowed| <= |order[i].pin.value.catalog| + 1
            && (key in grant.allowed <==> Contains(order[i].pin.value.catalog, key) || key == clusterDefault)
  {
    i := GrantsFrom(order, clusterDefault, team);
    AllowedKeys(order[i].pin.value, clusterDefault, key);
  }

  lemma OwnKeyIsCatalogued(config: Config, order: seq<Team>, i: nat, key: Key)
    requires i < |order| && order[i].pin.Some? && Contains(order[i].pin.value.catalog, key)
    ensures Contains(ResolutionIn(config, order).0.catalog, key)
  {
    var catalog := order[i].pin.value.catalog;
    var j :| 0 <= j < |catalog| && catalog[j].key == key;
    TeamKeyIsCatalogued(config, order, i, j);
  }

  /** Validating a resolution against the same teams finds no undeclared team and no empty grant. */
  lemma ResolvedGrantsAreSound(config: Config, order: seq<Team>, team: string)
    ensures !IsViolation(ResolutionIn(config, order).0, Names(order), GrantNamesUndeclaredTeam(team))
    ensures !IsViolation(ResolutionIn(config, order).0, Names(order), GrantAllowedEmpty(team))
  {
    if team in Grants(order, config.default) {
      var i := GrantOrigin(order, config.default, team, config.default);
      assert Names(order)[i] == team;
    }
  }

  /** An allowed key is unknown only when it is a cluster default nobody catalogued. */
  lemma OnlyTheDefaultCanBeUnknown(config: Config, order: seq<Team>, team: string, key: Key)
    ensures var r := ResolutionIn(config, order).0;
            IsViolation(r, Names(order), GrantAllowedUnknownKey(team, key)) <==>
            team in r.grants && key == config.default && !Contains(r.catalog, key)
  {
    if team in Grants(order, config.default) {
      var i := GrantOrigin(order, config.default, team, key);
      if Contains(order[i].pin.value.catalog, key) {
        OwnKeyIsCatalogued(config, order, i, key);
      }
    }
  }

  /** A grant's default is outside it only when its team named a key neither its own nor the cluster's. */
  lemma OutsideDefaultsAreTheTeams(config: Config, order: seq<Team>, team: string, key: Key) returns (i: nat)
    requires IsViolation(ResolutionIn(config, order).0, Names(order), GrantDefaultOutsideAllowed(team, key))
    ensures i < |order| && order[i].name == team && order[i].pin.Some? && order[i].pin.value.default == key
    ensures key != config.default && !Contains(order[i].pin.value.catalog, key)
  {
    i := GrantOrigin(order, config.default, team, key);
  }
}
