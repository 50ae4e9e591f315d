/** Rust's `slice::split` and `join`, for any element type, and the laws that tie them together. */
module Splitting {

  /** `x` put in front of the first piece. */
  function Prepend<T>(x: T, parts: seq<seq<T>>): (r: seq<seq<T>>)
    requires parts != []
    ensures r != []
  {
    [[x] + parts[0]] + parts[1..]
  }

  /** The pieces of `s` between separators: one more piece than there are separators. */
  function Split<T(==)>(s: seq<T>, seps: set<T>): (parts: seq<seq<T>>)
    ensures parts != []
  {
    if s == [] then [[]]
    else if s[0] in seps then [[]] + Split(s[1..], seps)
    else Prepend(s[0], Split(s[1..], seps))
  }

  function Join<T>(parts: seq<seq<T>>, sep: T): (s: seq<T>)
  {
    if parts == [] then []
    else if |parts| == 1 then parts[0]
    else parts[0] + [sep] + Join(parts[1..], sep)
  }

  ghost predicate Free<T>(s: seq<T>, seps: set<T>) {
    forall i | 0 <= i < |s| :: s[i] !in seps
  }

  lemma {:induction false} SplitFree<T>(s: seq<T>, seps: set<T>)
    requires Free(s, seps)
    ensures Split(s, seps) == [s]
  {
    if s != [] {
      SplitFree(s[1..], seps);
      assert [s[0]] + s[1..] == s;
    }
  }

  lemma PrependConcat<T>(x: T, left: seq<seq<T>>, right: seq<seq<T>>)
    requires left != []
    ensures Prepend(x, left + right) == Prepend(x, left) + right
  {
  }

  /** A separator cuts: what is left of it and what is right of it split on their own. */
  lemma {:induction false} SplitAt<T>(a: seq<T>, sep: T, b: seq<T>, seps: set<T>)
    requires sep in seps
    ensures Split(a + [sep] + b, seps) == Split(a, seps) + Split(b, seps)
  {
    var s := a + [sep] + b;
    if a == [] {
      assert s[1..] == b;
    } else {
      assert s[1..] == a[1..] + [sep] + b;
      SplitAt(a[1..], sep, b, seps);
      if a[0] in seps {
        assert [[]] + (Split(a[1..], seps) + Split(b, seps)) == [[]] + Split(a[1..], seps) + Split(b, seps);
      } else {
        PrependConcat(a[0], Split(a[1..], seps), Split(b, seps));
      }
    }
  }

  lemma {:induction false} SplitPiecesFree<T>(s: seq<T>, seps: set<T>)
    ensures forall i | 0 <= i < |Split(s, seps)| :: Free(Split(s, seps)[i], seps)
  {
    if s != [] {
      SplitPiecesFree(s[1..], seps);
    }
  }

  /** Splitting loses nothing. */
  lemma {:induction false} JoinOfSplit<T>(s: seq<T>, sep: T)
    ensures Join(Split(s, {sep}), sep) == s
  {
    if s != [] {
      JoinOfSplit(s[1..], sep);
      var rest := Split(s[1..], {sep});
      if s[0] == sep {
        assert ([[]] + rest)[1..] == rest;
      } else {
        assert Prepend(s[0], rest)[1..] == rest[1..];
        assert s == [s[0]] + s[1..];
      }
    }
  }

  /** Joining loses nothing either, as long as no piece holds the separator. */
  lemma {:induction false} SplitOfJoin<T>(parts: seq<seq<T>>, sep: T)
    requires parts != []
    requires forall i | 0 <= i < |parts| :: Free(parts[i], {sep})
    ensures Split(Join(parts, sep), {sep}) == parts
  {
    SplitFree(parts[0], {sep});
    if |parts| > 1 {
      SplitOfJoin(parts[1..], sep);
      SplitAt(parts[0], sep, Join(parts[1..], sep), {sep});
    }
  }
}
