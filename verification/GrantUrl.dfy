/** The grant in a return URL: appended by `/host-session`, read and stripped again by `redeem`. */
module GrantUrl {
  import opened Bytes
  import opened Strings
  import opened Splitting

  const GRANT_PARAM := "__weebo_grant"

  // ----- the pieces of a URI

  function PathOf(uri: string): string {
    uri[..Find(uri, '?')]
  }

  predicate HasQuery(uri: string) {
    Find(uri, '?') < |uri|
  }

  /** The `&`-separated pairs behind the first `?`; none when there is no `?`. */
  function Pairs(uri: string): (pairs: seq<string>) {
    if HasQuery(uri) then Split(uri[Find(uri, '?') + 1..], {'&'}) else []
  }

  function NameOf(pair: string): string {
    pair[..Find(pair, '=')]
  }

  predicate Keeps(pair: string, name: string) {
    pair != [] && NameOf(pair) != name
  }

  function Kept(pairs: seq<string>, name: string): (kept: seq<string>) {
    if pairs == [] then []
    else (if Keeps(pairs[0], name) then [pairs[0]] else []) + Kept(pairs[1..], name)
  }

  function WithPairs(path: string, pairs: seq<string>): string {
    if pairs == [] then path else path + ("?" + Join(pairs, '&'))
  }

  function StripQueryParam(uri: string, name: string): (r: string) {
    if !HasQuery(uri) then uri else WithPairs(PathOf(uri), Kept(Pairs(uri), name))
  }

  /** The `?` or `&`, and the grant behind it. */
  function AppendGrant(target: string, sealed: string): string {
    AppendPair(target, GrantPair(sealed))
  }

  function AppendPair(target: string, pair: string): string {
    target + ([if HasQuery(target) then '&' else '?'] + pair)
  }

  function GrantPair(sealed: string): string {
    GRANT_PARAM + ("=" + sealed)
  }

  /** `query_of`: of two pairs with one name, the later one stays. */
  function QueryOf(pairs: seq<string>): (m: map<string, string>) {
    if pairs == [] then map[]
    else
      var last := pairs[|pairs| - 1];
      var before := QueryOf(pairs[..|pairs| - 1]);
      if Find(last, '=') < |last| then before[NameOf(last) := last[Find(last, '=') + 1..]] else before
  }

  function SameHostLocation(host: string, uri: string): (r: Option<string>) {
    if uri != [] && uri[0] == '/' then Some("https://" + host + StripQueryParam(uri, GRANT_PARAM)) else None
  }

  // ----- reading back what was put together

  lemma PathHasNoMark(uri: string)
    ensures '?' !in PathOf(uri)
  {
  }

  ghost predicate AllFree(pairs: seq<string>) {
    forall i | 0 <= i < |pairs| :: Free(pairs[i], {'&'})
  }

  lemma PairsOfWith(path: string, pairs: seq<string>)
    requires '?' !in path && AllFree(pairs)
    ensures PathOf(WithPairs(path, pairs)) == path
    ensures Pairs(WithPairs(path, pairs)) == pairs
  {
    if pairs == [] {
      assert Find(path, '?') == |path|;
    } else {
      FindAt(path, '?', Join(pairs, '&'));
      SplitOfJoin(pairs, '&');
    }
  }

  lemma PairsAreFree(uri: string)
    ensures AllFree(Pairs(uri))
  {
    if HasQuery(uri) {
      SplitPiecesFree(uri[Find(uri, '?') + 1..], {'&'});
    }
  }

  /** A URI is its path and its pairs, and nothing else. */
  lemma PartsMakeUri(uri: string)
    ensures uri == WithPairs(PathOf(uri), Pairs(uri))
  {
    if HasQuery(uri) {
      var q := Find(uri, '?');
      JoinOfSplit(uri[q + 1..], '&');
      assert uri == uri[..q] + ("?" + uri[q + 1..]);
    } else {
      assert uri[..|uri|] == uri;
    }
  }

  lemma {:induction false} KeptIsFree(pairs: seq<string>, name: string)
    requires AllFree(pairs)
    ensures AllFree(Kept(pairs, name))
  {
    if pairs != [] {
      KeptIsFree(pairs[1..], name);
    }
  }

  // ----- stripping

  /** What survives, by its letters: a pair that is neither empty, nor the bare name, nor the name and a value. */
  predicate Survives(pair: string, name: string) {
    pair != "" && pair != name && !(name + "=" <= pair)
  }

  lemma KeepsMeans(pair: string, name: string)
    requires '=' !in name
    ensures Keeps(pair, name) <==> Survives(pair, name)
  {
    var at := Find(pair, '=');
    if at < |pair| {
      assert pair == pair[..at] + ("=" + pair[at + 1..]);
      if name + "=" <= pair {
        assert pair[|name|] == '=';
        assert forall j | 0 <= j < |name| :: pair[j] == name[j];
      }
    } else {
      NamedHasEquals(pair, name);
    }
  }

  lemma NamedHasEquals(pair: string, name: string)
    ensures name + "=" <= pair ==> '=' in pair
  {
    if name + "=" <= pair {
      assert pair[|name|] == '=';
    }
  }

  lemma {:induction false} KeptCounts(pairs: seq<string>, name: string, pair: string)
    requires '=' !in name
    ensures multiset(Kept(pairs, name))[pair] == if Survives(pair, name) then multiset(pairs)[pair] else 0
  {
    if pairs != [] {
      KeptCounts(pairs[1..], name, pair);
      KeepsMeans(pairs[0], name);
      assert pairs == [pairs[0]] + pairs[1..];
    }
  }

  /** Stripping keeps every pair that survives, as often as it was there, and no other. */
  lemma StripSurvivors(uri: string, name: string, pair: string)
    requires '=' !in name
    ensures multiset(Pairs(StripQueryParam(uri, name)))[pair]
         == if Survives(pair, name) then multiset(Pairs(uri))[pair] else 0
  {
    StripKeeps(uri, name);
    KeptCounts(Pairs(uri), name, pair);
  }

  /** And in their order: a query stripped is its front stripped and then its back stripped. */
  lemma StripInOrder(path: string, a: seq<string>, b: seq<string>, name: string)
    requires '?' !in path && AllFree(a) && AllFree(b)
    ensures Pairs(StripQueryParam(WithPairs(path, a + b), name))
         == Pairs(StripQueryParam(WithPairs(path, a), name)) + Pairs(StripQueryParam(WithPairs(path, b), name))
  {
    PairsOfWith(path, a);
    PairsOfWith(path, b);
    PairsOfWith(path, a + b);
    StripKeeps(WithPairs(path, a), name);
    StripKeeps(WithPairs(path, b), name);
    StripKeeps(WithPairs(path, a + b), name);
    KeptConcat(a, b, name);
  }

  /** Stripping keeps the path and exactly the non-empty pairs of other names, in order. */
  lemma StripKeeps(uri: string, name: string)
    ensures PathOf(StripQueryParam(uri, name)) == PathOf(uri)
    ensures Pairs(StripQueryParam(uri, name)) == Kept(Pairs(uri), name)
  {
    if HasQuery(uri) {
      PathHasNoMark(uri);
      PairsAreFree(uri);
      KeptIsFree(Pairs(uri), name);
      PairsOfWith(PathOf(uri), Kept(Pairs(uri), name));
    }
  }

  lemma StripIsWith(uri: string, name: string)
    ensures StripQueryParam(uri, name) == WithPairs(PathOf(uri), Kept(Pairs(uri), name))
  {
  }

  lemma {:induction false} KeptTwice(pairs: seq<string>, name: string)
    ensures Kept(Kept(pairs, name), name) == Kept(pairs, name)
  {
    if pairs != [] {
      KeptTwice(pairs[1..], name);
      if Keeps(pairs[0], name) {
        assert Kept(pairs, name)[1..] == Kept(pairs[1..], name);
      } else {
        assert Kept(pairs, name) == Kept(pairs[1..], name);
      }
    }
  }

  lemma StripIsIdempotent(uri: string, name: string)
    ensures StripQueryParam(StripQueryParam(uri, name), name) == StripQueryParam(uri, name)
  {
    StripKeeps(uri, name);
    KeptTwice(Pairs(uri), name);
    StripIsWith(uri, name);
    StripIsWith(StripQueryParam(uri, name), name);
  }

  lemma {:induction false} KeptAll(pairs: seq<string>, name: string)
    ensures Kept(pairs, name) == pairs <==> forall i | 0 <= i < |pairs| :: Keeps(pairs[i], name)
    ensures |Kept(pairs, name)| <= |pairs|
  {
    if pairs != [] {
      KeptAll(pairs[1..], name);
      assert pairs == [pairs[0]] + pairs[1..];
      assert forall i | 1 <= i < |pairs| :: pairs[i] == pairs[1..][i - 1];
      if Keeps(pairs[0], name) {
        assert Kept(pairs, name)[1..] == Kept(pairs[1..], name);
      }
    }
  }

  /** Nothing is lost exactly when there is nothing to strip: no empty pair, none of that name. */
  lemma StripChangesNothingIff(uri: string, name: string)
    ensures StripQueryParam(uri, name) == uri <==> forall i | 0 <= i < |Pairs(uri)| :: Keeps(Pairs(uri)[i], name)
  {
    StripKeeps(uri, name);
    StripIsWith(uri, name);
    PartsMakeUri(uri);
    KeptAll(Pairs(uri), name);
  }

  // ----- the grant

  lemma GrantPairParts(sealed: string)
    ensures NameOf(GrantPair(sealed)) == GRANT_PARAM
    ensures Find(GrantPair(sealed), '=') == |GRANT_PARAM|
    ensures GrantPair(sealed)[|GRANT_PARAM| + 1..] == sealed
    ensures '&' !in sealed ==> Free(GrantPair(sealed), {'&'})
  {
    FindAt(GRANT_PARAM, '=', sealed);
  }

  lemma AppendToQuery(target: string, pair: string)
    requires HasQuery(target) && Free(pair, {'&'})
    ensures PathOf(AppendPair(target, pair)) == PathOf(target)
    ensures Pairs(AppendPair(target, pair)) == Pairs(target) + [pair]
  {
    var q := Find(target, '?');
    var query := target[q + 1..];
    var longer := query + ['&'] + pair;
    SplitAt(query, '&', pair, {'&'});
    SplitFree(pair, {'&'});
    PathHasNoMark(target);
    assert AppendPair(target, pair) == target[..q] + (['?'] + longer);
    FindAt(target[..q], '?', longer);
  }

  lemma AppendToPath(target: string, pair: string)
    requires !HasQuery(target) && Free(pair, {'&'})
    ensures PathOf(AppendPair(target, pair)) == PathOf(target)
    ensures Pairs(AppendPair(target, pair)) == Pairs(target) + [pair]
  {
    SplitFree(pair, {'&'});
    FindAt(target, '?', pair);
    assert target[..|target|] == target;
  }

  /** The appended grant is one more pair, at the end. */
  lemma PairsOfAppend(target: string, sealed: string)
    requires '&' !in sealed
    ensures PathOf(AppendGrant(target, sealed)) == PathOf(target)
    ensures Pairs(AppendGrant(target, sealed)) == Pairs(target) + [GrantPair(sealed)]
  {
    GrantPairParts(sealed);
    if HasQuery(target) {
      AppendToQuery(target, GrantPair(sealed));
    } else {
      AppendToPath(target, GrantPair(sealed));
    }
  }

  lemma {:induction false} KeptConcat(a: seq<string>, b: seq<string>, name: string)
    ensures Kept(a + b, name) == Kept(a, name) + Kept(b, name)
  {
    if a == [] {
      assert a + b == b;
    } else {
      assert (a + b)[1..] == a[1..] + b;
      KeptConcat(a[1..], b, name);
      var head := if Keeps(a[0], name) then [a[0]] else [];
      assert head + (Kept(a[1..], name) + Kept(b, name)) == head + Kept(a[1..], name) + Kept(b, name);
    }
  }

  lemma StripAfterAppend(target: string, sealed: string)
    requires '&' !in sealed
    ensures StripQueryParam(AppendGrant(target, sealed), GRANT_PARAM) == StripQueryParam(target, GRANT_PARAM)
  {
    PairsOfAppend(target, sealed);
    GrantPairParts(sealed);
    KeptConcat(Pairs(target), [GrantPair(sealed)], GRANT_PARAM);
    assert [GrantPair(sealed)][1..] == [];
    assert Kept([GrantPair(sealed)], GRANT_PARAM) == [];
    assert Kept(Pairs(target), GRANT_PARAM) + [] == Kept(Pairs(target), GRANT_PARAM);
    StripIsWith(AppendGrant(target, sealed), GRANT_PARAM);
    StripIsWith(target, GRANT_PARAM);
  }

  /**
   * Stripping gives back the very URL the grant was appended to, exactly when that URL had no empty pair
   * and no grant of its own.
   */
  lemma StripUndoesAppendIff(target: string, sealed: string)
    requires '&' !in sealed
    ensures StripQueryParam(AppendGrant(target, sealed), GRANT_PARAM) == target <==>
            forall i | 0 <= i < |Pairs(target)| :: Survives(Pairs(target)[i], GRANT_PARAM)
  {
    StripAfterAppend(target, sealed);
    StripChangesNothingIff(target, GRANT_PARAM);
    forall i | 0 <= i < |Pairs(target)|
      ensures Keeps(Pairs(target)[i], GRANT_PARAM) <==> Survives(Pairs(target)[i], GRANT_PARAM)
    {
      KeepsMeans(Pairs(target)[i], GRANT_PARAM);
    }
  }

  lemma EmptyPairSpelled()
    ensures WithPairs("/p", ["a=1", "", "b=2"]) == "/p?a=1&&b=2"
    ensures WithPairs("/p", ["a=1", "b=2"]) == "/p?a=1&b=2"
  {
    assert ["a=1", "", "b=2"][1..] == ["", "b=2"] && ["", "b=2"][1..] == ["b=2"] && ["a=1", "b=2"][1..] == ["b=2"];
    assert Join(["b=2"], '&') == "b=2";
    assert Join(["", "b=2"], '&') == "&b=2";
  }

  lemma EmptyPairParts()
    ensures Pairs("/p?a=1&&b=2") == ["a=1", "", "b=2"] && PathOf("/p?a=1&&b=2") == "/p"
  {
    EmptyPairSpelled();
    PairsOfWith("/p", ["a=1", "", "b=2"]);
  }

  lemma NamesOfOthers()
    ensures Keeps("a=1", GRANT_PARAM) && Keeps("b=2", GRANT_PARAM)
  {
    assert NameOf("a=1")[0] == 'a' && NameOf("b=2")[0] == 'b';
  }

  /** An empty pair of the target's own is lost on the way: `/p?a=1&&b=2` comes back as `/p?a=1&b=2`. */
  lemma EmptyPairIsDropped(sealed: string)
    requires '&' !in sealed
    ensures StripQueryParam(AppendGrant("/p?a=1&&b=2", sealed), GRANT_PARAM) == "/p?a=1&b=2"
  {
    var pairs := ["a=1", "", "b=2"];
    EmptyPairParts();
    EmptyPairSpelled();
    NamesOfOthers();
    assert pairs[1..] == ["", "b=2"] && pairs[1..][1..] == ["b=2"] && pairs[1..][1..][1..] == [];
    assert Kept(pairs, GRANT_PARAM) == ["a=1", "b=2"];
    StripAfterAppend("/p?a=1&&b=2", sealed);
    StripIsWith("/p?a=1&&b=2", GRANT_PARAM);
  }

  /** Of two pairs with one name the later one counts, and a pair without `=` counts for nothing. */
  lemma QueryOfSnoc(pairs: seq<string>, name: string, value: string, bare: string)
    requires '=' !in name && '=' !in bare
    ensures QueryOf(pairs + [name + ("=" + value)]) == QueryOf(pairs)[name := value]
    ensures QueryOf(pairs + [bare]) == QueryOf(pairs)
    ensures QueryOf([]) == map[]
  {
    FindAt(name, '=', value);
    assert (pairs + [name + ("=" + value)])[..|pairs|] == pairs;
    assert (pairs + [bare])[..|pairs|] == pairs;
  }

  /** What `redeem` reads is the grant that was appended, whatever the target already carried. */
  lemma RedeemReadsTheGrant(target: string, sealed: string)
    requires '&' !in sealed
    ensures GRANT_PARAM in QueryOf(Pairs(AppendGrant(target, sealed)))
    ensures QueryOf(Pairs(AppendGrant(target, sealed)))[GRANT_PARAM] == sealed
  {
    PairsOfAppend(target, sealed);
    GrantPairParts(sealed);
    var pairs := Pairs(target) + [GrantPair(sealed)];
    assert pairs[|pairs| - 1] == GrantPair(sealed);
  }

  /** A redemption goes back to the same host: it is refused unless what follows the host is a path. */
  lemma LocationStaysOnHost(host: string, uri: string) returns (rest: string)
    ensures SameHostLocation(host, uri).Some? <==> uri != [] && uri[0] == '/'
    ensures SameHostLocation(host, uri).Some? ==>
              && SameHostLocation(host, uri).value == "https://" + host + rest
              && rest != [] && rest[0] == '/'
              && PathOf(rest) == PathOf(uri) && Pairs(rest) == Kept(Pairs(uri), GRANT_PARAM)
  {
    rest := StripQueryParam(uri, GRANT_PARAM);
    StripKeeps(uri, GRANT_PARAM);
    StripIsWith(uri, GRANT_PARAM);
  }
}
