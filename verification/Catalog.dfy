/** Merging one cluster catalogue with every team's: a key means one thing, and the first to say what wins. */
module Catalog {
  import opened Bytes

  /** One entry a team offers, in resolution order. */
  datatype Offer<T> = Offer(team: string, entry: T)

  datatype Conflict<K> = Conflict(team: string, key: K)

  /** The first entry with key `k`. */
  function First<T, K(==)>(entries: seq<T>, keyOf: T -> K, k: K): (r: Option<T>)
    ensures r.Some? ==> keyOf(r.value) == k
  {
    if entries == [] then None
    else if keyOf(entries[0]) == k then Some(entries[0])
    else First(entries[1..], keyOf, k)
  }

  lemma {:induction false} FirstNone<T, K>(entries: seq<T>, keyOf: T -> K, k: K, i: nat)
    requires First(entries, keyOf, k).None? && i < |entries|
    ensures keyOf(entries[i]) != k
  {
    if i > 0 {
      FirstNone(entries[1..], keyOf, k, i - 1);
    }
  }

  /** The first entry with a key stands somewhere, with no other before it. */
  lemma {:induction false} FirstPlace<T, K>(entries: seq<T>, keyOf: T -> K, k: K) returns (i: nat)
    requires First(entries, keyOf, k).Some?
    ensures i < |entries| && First(entries, keyOf, k) == Some(entries[i])
    ensures forall j | 0 <= j < i :: keyOf(entries[j]) != k
  {
    if keyOf(entries[0]) == k {
      i := 0;
    } else {
      i := FirstPlace(entries[1..], keyOf, k);
      i := i + 1;
    }
  }

  function Entries<T>(offers: seq<Offer<T>>): (entries: seq<T>)
    ensures |entries| == |offers|
    ensures forall i | 0 <= i < |offers| :: entries[i] == offers[i].entry
  {
    seq(|offers|, i requires 0 <= i < |offers| => offers[i].entry)
  }

  // ----- the merge, one offer at a time

  function Extend<T, K(==)>(merged: seq<T>, entry: T, keyOf: T -> K): seq<T> {
    if First(merged, keyOf, keyOf(entry)).None? then merged + [entry] else merged
  }

  function Merged<T, K(==)>(merged: seq<T>, offers: seq<Offer<T>>, keyOf: T -> K): (r: seq<T>)
    decreases |offers|
  {
    if offers == [] then merged
    else Merged(Extend(merged, offers[0].entry, keyOf), offers[1..], keyOf)
  }

  /** The offers that lost: whose entry is not what `winners` has under its key. */
  function Losers<T(==), K(==)>(winners: seq<T>, offers: seq<Offer<T>>, keyOf: T -> K): (r: seq<Conflict<K>>)
  {
    if offers == [] then []
    else
      var o := offers[0];
      var k := keyOf(o.entry);
      (if First(winners, keyOf, k) != Some(o.entry) then [Conflict(o.team, k)] else [])
      + Losers(winners, offers[1..], keyOf)
  }

  // ----- what the merge means

  lemma {:induction false} FirstOfConcat<T, K>(a: seq<T>, b: seq<T>, keyOf: T -> K, k: K)
    ensures First(a + b, keyOf, k) == if First(a, keyOf, k).Some? then First(a, keyOf, k) else First(b, keyOf, k)
  {
    if a == [] {
      assert a + b == b;
    } else {
      assert (a + b)[1..] == a[1..] + b;
      FirstOfConcat(a[1..], b, keyOf, k);
    }
  }

  lemma FirstOfExtend<T, K>(merged: seq<T>, entry: T, keyOf: T -> K, k: K)
    ensures First(Extend(merged, entry, keyOf), keyOf, k) == First(merged + [entry], keyOf, k)
  {
    FirstOfConcat(merged, [entry], keyOf, k);
  }

  lemma EntriesCons<T>(cluster: seq<T>, offers: seq<Offer<T>>)
    requires offers != []
    ensures cluster + Entries(offers) == cluster + [offers[0].entry] + Entries(offers[1..])
  {
  }

  lemma FirstOfExtendAnd<T, K>(merged: seq<T>, entry: T, rest: seq<T>, keyOf: T -> K, k: K)
    ensures First(Extend(merged, entry, keyOf) + rest, keyOf, k) == First(merged + [entry] + rest, keyOf, k)
  {
    FirstOfExtend(merged, entry, keyOf, k);
    FirstOfConcat(Extend(merged, entry, keyOf), rest, keyOf, k);
    FirstOfConcat(merged + [entry], rest, keyOf, k);
  }

  /** Every key of the merged catalogue has its first definition, cluster first, then the teams in order. */
  lemma {:induction false} FirstDefinitionWins<T, K>(cluster: seq<T>, offers: seq<Offer<T>>, keyOf: T -> K, k: K)
    ensures First(Merged(cluster, offers, keyOf), keyOf, k) == First(cluster + Entries(offers), keyOf, k)
    decreases |offers|
  {
    if offers == [] {
      assert cluster + Entries(offers) == cluster;
    } else {
      FirstDefinitionWins(Extend(cluster, offers[0].entry, keyOf), offers[1..], keyOf, k);
      FirstOfExtendAnd(cluster, offers[0].entry, Entries(offers[1..]), keyOf, k);
      EntriesCons(cluster, offers);
    }
  }

  lemma {:induction false} ClusterIsPrefix<T, K>(cluster: seq<T>, offers: seq<Offer<T>>, keyOf: T -> K)
    ensures cluster <= Merged(cluster, offers, keyOf)
    decreases |offers|
  {
    if offers != [] {
      ClusterIsPrefix(Extend(cluster, offers[0].entry, keyOf), offers[1..], keyOf);
    }
  }

  /** From place `from` on, every entry has a key not seen before it. */
  ghost predicate NewKeysFrom<T, K>(entries: seq<T>, keyOf: T -> K, from: nat) {
    forall i, j | 0 <= i < j < |entries| && from <= j :: keyOf(entries[i]) != keyOf(entries[j])
  }

  lemma ExtendAddsNewKey<T, K>(merged: seq<T>, entry: T, keyOf: T -> K, from: nat)
    requires NewKeysFrom(merged, keyOf, from)
    ensures NewKeysFrom(Extend(merged, entry, keyOf), keyOf, from)
  {
    var extended := Extend(merged, entry, keyOf);
    forall i, j | 0 <= i < j < |extended| && from <= j
      ensures keyOf(extended[i]) != keyOf(extended[j])
    {
      if j == |merged| {
        FirstNone(merged, keyOf, keyOf(entry), i);
      }
    }
  }

  /** The merge adds no duplicate key: the only duplicates are those the cluster catalogue came with. */
  lemma {:induction false} NoDuplicateAdded<T, K>(cluster: seq<T>, offers: seq<Offer<T>>, keyOf: T -> K, from: nat)
    requires NewKeysFrom(cluster, keyOf, from)
    ensures NewKeysFrom(Merged(cluster, offers, keyOf), keyOf, from)
    decreases |offers|
  {
    if offers != [] {
      ExtendAddsNewKey(cluster, offers[0].entry, keyOf, from);
      NoDuplicateAdded(Extend(cluster, offers[0].entry, keyOf), offers[1..], keyOf, from);
    }
  }

  /** Merging the result with the same teams changes nothing. */
  lemma {:induction false} MergeAgain<T, K>(winners: seq<T>, offers: seq<Offer<T>>, keyOf: T -> K)
    requires forall i | 0 <= i < |offers| :: First(winners, keyOf, keyOf(offers[i].entry)).Some?
    ensures Merged(winners, offers, keyOf) == winners
    decreases |offers|
  {
    if offers != [] {
      assert Extend(winners, offers[0].entry, keyOf) == winners;
      MergeAgain(winners, offers[1..], keyOf);
    }
  }

  /** Every key offered is defined in the end. */
  lemma OfferedKeyIsDefined<T, K>(cluster: seq<T>, offers: seq<Offer<T>>, keyOf: T -> K, i: nat)
    requires i < |offers|
    ensures First(Merged(cluster, offers, keyOf), keyOf, keyOf(offers[i].entry)).Some?
  {
    var k := keyOf(offers[i].entry);
    var all := cluster + Entries(offers);
    FirstDefinitionWins(cluster, offers, keyOf, k);
    assert all[|cluster| + i] == offers[i].entry;
    if First(all, keyOf, k).None? {
      FirstNone(all, keyOf, k, |cluster| + i);
    }
  }

  lemma MergeIsIdempotent<T, K>(cluster: seq<T>, offers: seq<Offer<T>>, keyOf: T -> K)
    ensures var winners := Merged(cluster, offers, keyOf);
            && Merged(winners, offers, keyOf) == winners
            && Losers(Merged(winners, offers, keyOf), offers, keyOf) == Losers(winners, offers, keyOf)
  {
    var winners := Merged(cluster, offers, keyOf);
    forall i | 0 <= i < |offers|
      ensures First(winners, keyOf, keyOf(offers[i].entry)).Some?
    {
      OfferedKeyIsDefined(cluster, offers, keyOf, i);
    }
    MergeAgain(winners, offers, keyOf);
  }

  // ----- the source's loops

  /** `seen` knows every key of `merged`, and where its first entry is. */
  ghost predicate Indexes<T, K>(seen: map<K, nat>, merged: seq<T>, keyOf: T -> K) {
    && (forall k | k in seen :: seen[k] < |merged| && First(merged, keyOf, k) == Some(merged[seen[k]]))
    && (forall i | 0 <= i < |merged| :: keyOf(merged[i]) in seen)
  }

  lemma IndexesKey<T, K>(seen: map<K, nat>, merged: seq<T>, keyOf: T -> K, k: K)
    requires Indexes(seen, merged, keyOf)
    ensures k in seen <==> First(merged, keyOf, k).Some?
  {
    if First(merged, keyOf, k).Some? {
      var i := FirstPlace(merged, keyOf, k);
    }
  }

  lemma FirstOfSnoc<T, K>(merged: seq<T>, entry: T, keyOf: T -> K, k: K)
    ensures First(merged + [entry], keyOf, k) ==
            if First(merged, keyOf, k).Some? then First(merged, keyOf, k)
            else if keyOf(entry) == k then Some(entry) else None
  {
    FirstOfConcat(merged, [entry], keyOf, k);
  }

  lemma IndexesSnoc<T, K>(seen: map<K, nat>, merged: seq<T>, entry: T, keyOf: T -> K)
    requires Indexes(seen, merged, keyOf)
    ensures Indexes(if keyOf(entry) in seen then seen else seen[keyOf(entry) := |merged|], merged + [entry], keyOf)
  {
    var seen' := if keyOf(entry) in seen then seen else seen[keyOf(entry) := |merged|];
    var merged' := merged + [entry];
    forall k | k in seen'
      ensures seen'[k] < |merged'| && First(merged', keyOf, k) == Some(merged'[seen'[k]])
    {
      IndexesKey(seen, merged, keyOf, k);
      FirstOfSnoc(merged, entry, keyOf, k);
    }
  }

  method IndexCluster<T, K(==)>(cluster: seq<T>, keyOf: T -> K) returns (seen: map<K, nat>)
    ensures Indexes(seen, cluster, keyOf)
  {
    seen := map[];
    for i := 0 to |cluster|
      invariant Indexes(seen, cluster[..i], keyOf)
    {
      IndexesSnoc(seen, cluster[..i], cluster[i], keyOf);
      assert cluster[..i + 1] == cluster[..i] + [cluster[i]];
      if keyOf(cluster[i]) !in seen {
        seen := seen[keyOf(cluster[i]) := i];
      }
    }
    assert cluster[..|cluster|] == cluster;
  }

  /** Every team's entries, flattened in the order the nested loops visit them. */
  function Flatten<T>(teams: seq<(string, seq<T>)>): (offers: seq<Offer<T>>) {
    if teams == [] then [] else OffersOf(teams[0]) + Flatten(teams[1..])
  }

  function OffersOf<T>(team: (string, seq<T>)): (offers: seq<Offer<T>>)
    ensures |offers| == |team.1|
  {
    seq(|team.1|, i requires 0 <= i < |team.1| => Offer(team.0, team.1[i]))
  }

  /** What the loops hold after the offers `done`. */
  ghost predicate Holds<T, K>(cluster: seq<T>, done: seq<Offer<T>>, keyOf: T -> K,
                              seen: map<K, nat>, merged: seq<T>, conflicts: seq<Conflict<K>>) {
    && Indexes(seen, merged, keyOf)
    && merged == Merged(cluster, done, keyOf)
    && conflicts == Losers(merged, done, keyOf)
  }

  /** One turn of the inner loop. */
  method TakeOffer<T(==), K(==)>(seen: map<K, nat>, merged: seq<T>, conflicts: seq<Conflict<K>>, offer: Offer<T>,
                                 keyOf: T -> K, ghost cluster: seq<T>, ghost done: seq<Offer<T>>)
    returns (seen': map<K, nat>, merged': seq<T>, conflicts': seq<Conflict<K>>)
    requires Holds(cluster, done, keyOf, seen, merged, conflicts)
    ensures Holds(cluster, done + [offer], keyOf, seen', merged', conflicts')
  {
    var key := keyOf(offer.entry);
    IndexesKey(seen, merged, keyOf, key);
    MergedSnoc(cluster, done, offer, keyOf);
    LosersSnoc(cluster, done, offer, keyOf);
    LosersOfOne(Extend(merged, offer.entry, keyOf), offer, keyOf);
    if key in seen {
      if merged[seen[key]] != offer.entry {
        return seen, merged, conflicts + [Conflict(offer.team, key)];
      }
      return seen, merged, conflicts;
    }
    IndexesSnoc(seen, merged, offer.entry, keyOf);
    FirstOfSnoc(merged, offer.entry, keyOf, key);
    return seen[key := |merged|], merged + [offer.entry], conflicts;
  }

  lemma LosersOfOne<T, K>(winners: seq<T>, offer: Offer<T>, keyOf: T -> K)
    ensures Losers(winners, [offer], keyOf) ==
            if First(winners, keyOf, keyOf(offer.entry)) == Some(offer.entry) then []
            else [Conflict(offer.team, keyOf(offer.entry))]
  {
  }

  lemma NextOffer<T>(before: seq<Offer<T>>, team: (string, seq<T>), j: nat)
    requires j < |team.1|
    ensures before + OffersOf(team)[..j + 1] == before + OffersOf(team)[..j] + [Offer(team.0, team.1[j])]
  {
  }

  /** The inner loop: one team's entries. */
  method TakeTeam<T(==), K(==)>(seen: map<K, nat>, merged: seq<T>, conflicts: seq<Conflict<K>>, team: (string, seq<T>),
                                keyOf: T -> K, ghost cluster: seq<T>, ghost before: seq<Offer<T>>)
    returns (seen': map<K, nat>, merged': seq<T>, conflicts': seq<Conflict<K>>)
    requires Holds(cluster, before, keyOf, seen, merged, conflicts)
    ensures Holds(cluster, before + OffersOf(team), keyOf, seen', merged', conflicts')
  {
    seen', merged', conflicts' := seen, merged, conflicts;
    assert before + OffersOf(team)[..0] == before;
    for j := 0 to |team.1|
      invariant Holds(cluster, before + OffersOf(team)[..j], keyOf, seen', merged', conflicts')
    {
      NextOffer(before, team, j);
      seen', merged', conflicts' := TakeOffer(seen', merged', conflicts', Offer(team.0, team.1[j]), keyOf,
                                              cluster, before + OffersOf(team)[..j]);
    }
    assert OffersOf(team)[..|team.1|] == OffersOf(team);
  }

  method MergeCatalogs<T(==), K(==)>(cluster: seq<T>, teams: seq<(string, seq<T>)>, keyOf: T -> K)
    returns (merged: seq<T>, conflicts: seq<Conflict<K>>)
    ensures merged == Merged(cluster, Flatten(teams), keyOf)
    ensures conflicts == Losers(merged, Flatten(teams), keyOf)
  {
    merged := cluster;
    conflicts := [];
    var seen := IndexCluster(cluster, keyOf);
    assert Flatten(teams[..0]) == [];
    for i := 0 to |teams|
      invariant Holds(cluster, Flatten(teams[..i]), keyOf, seen, merged, conflicts)
    {
      FlattenSnoc(teams[..i], teams[i]);
      assert teams[..i + 1] == teams[..i] + [teams[i]];
      seen, merged, conflicts := TakeTeam(seen, merged, conflicts, teams[i], keyOf, cluster, Flatten(teams[..i]));
    }
    assert teams[..|teams|] == teams;
  }

  lemma {:induction false} FlattenSnoc<T>(teams: seq<(string, seq<T>)>, team: (string, seq<T>))
    ensures Flatten(teams + [team]) == Flatten(teams) + OffersOf(team)
  {
    if teams == [] {
      assert [team][1..] == [];
      assert Flatten([team]) == OffersOf(team) + [];
    } else {
      assert (teams + [team])[1..] == teams[1..] + [team];
      FlattenSnoc(teams[1..], team);
      assert OffersOf(teams[0]) + (Flatten(teams[1..]) + OffersOf(team))
          == OffersOf(teams[0]) + Flatten(teams[1..]) + OffersOf(team);
    }
  }

  lemma {:induction false} MergedSnoc<T, K>(cluster: seq<T>, offers: seq<Offer<T>>, offer: Offer<T>, keyOf: T -> K)
    ensures Merged(cluster, offers + [offer], keyOf) == Extend(Merged(cluster, offers, keyOf), offer.entry, keyOf)
    decreases |offers|
  {
    if offers != [] {
      assert (offers + [offer])[1..] == offers[1..] + [offer];
      MergedSnoc(Extend(cluster, offers[0].entry, keyOf), offers[1..], offer, keyOf);
    }
  }

  lemma {:induction false} LosersConcat<T, K>(winners: seq<T>, a: seq<Offer<T>>, b: seq<Offer<T>>, keyOf: T -> K)
    ensures Losers(winners, a + b, keyOf) == Losers(winners, a, keyOf) + Losers(winners, b, keyOf)
  {
    if a == [] {
      assert a + b == b;
    } else {
      assert (a + b)[1..] == a[1..] + b;
      LosersConcat(winners, a[1..], b, keyOf);
      var k := keyOf(a[0].entry);
      var head := if First(winners, keyOf, k) != Some(a[0].entry) then [Conflict(a[0].team, k)] else [];
      assert head + (Losers(winners, a[1..], keyOf) + Losers(winners, b, keyOf))
          == head + Losers(winners, a[1..], keyOf) + Losers(winners, b, keyOf);
    }
  }

  lemma {:induction false} LosersFrame<T, K>(winners: seq<T>, winners': seq<T>, offers: seq<Offer<T>>, keyOf: T -> K)
    requires forall i | 0 <= i < |offers| ::
               First(winners, keyOf, keyOf(offers[i].entry)) == First(winners', keyOf, keyOf(offers[i].entry))
    ensures Losers(winners, offers, keyOf) == Losers(winners', offers, keyOf)
  {
    if offers != [] {
      LosersFrame(winners, winners', offers[1..], keyOf);
    }
  }

  /** A conflict is decided when it is met: later offers never turn a winner into a loser. */
  lemma LosersSnoc<T, K>(cluster: seq<T>, done: seq<Offer<T>>, offer: Offer<T>, keyOf: T -> K)
    ensures var before, after := Merged(cluster, done, keyOf), Merged(cluster, done + [offer], keyOf);
            Losers(after, done + [offer], keyOf) == Losers(before, done, keyOf) + Losers(after, [offer], keyOf)
  {
    var before, after := Merged(cluster, done, keyOf), Merged(cluster, done + [offer], keyOf);
    LosersConcat(after, done, [offer], keyOf);
    MergedSnoc(cluster, done, offer, keyOf);
    forall i | 0 <= i < |done|
      ensures First(before, keyOf, keyOf(done[i].entry)) == First(after, keyOf, keyOf(done[i].entry))
    {
      var k := keyOf(done[i].entry);
      OfferedKeyIsDefined(cluster, done, keyOf, i);
      FirstOfExtend(before, offer.entry, keyOf, k);
      FirstOfConcat(before, [offer.entry], keyOf, k);
    }
    LosersFrame(before, after, done, keyOf);
  }
}
