/** `specs.sort_by { |s| s.version }.last`: ordering candidates by version
    and taking the highest. */
module VersionOrder {
  import opened GemModel

  predicate SortedByVersion(xs: seq<Spec>) {
    forall i, j :: 0 <= i < j < |xs| ==> xs[i].version <= xs[j].version
  }

  /** `m` is a candidate whose version is at least every candidate's. */
  predicate IsHighest(m: Spec, xs: seq<Spec>) {
    m in xs && forall c :: c in xs ==> c.version <= m.version
  }

  /** Puts `s` in front of the first element whose version is not lower. */
  function InsertByVersion(s: Spec, xs: seq<Spec>): (r: seq<Spec>)
    requires SortedByVersion(xs)
    ensures SortedByVersion(r)
    ensures multiset(r) == multiset(xs) + multiset{s}
    ensures |r| == |xs| + 1
  {
    if |xs| == 0 || s.version <= xs[0].version then
      [s] + xs
    else
      var rest := InsertByVersion(s, xs[1..]);
      LowerBoundKept(xs[0].version, s, xs[1..], rest);
      assert xs == [xs[0]] + xs[1..];
      assert multiset([xs[0]] + rest) == multiset{xs[0]} + multiset(rest);
      [xs[0]] + rest
  }

  /** A lower bound on the versions of `xs` and of `s` bounds every
      element of a sequence with the same elements. */
  lemma LowerBoundKept(v: nat, s: Spec, xs: seq<Spec>, r: seq<Spec>)
    requires v <= s.version
    requires forall c :: c in xs ==> v <= c.version
    requires multiset(r) == multiset(xs) + multiset{s}
    ensures forall k :: 0 <= k < |r| ==> v <= r[k].version
  {
    forall k | 0 <= k < |r|
      ensures v <= r[k].version
    {
      assert r[k] in multiset(r);
    }
  }

  /** Orders specifications by version; equal versions keep their order. */
  function SortByVersion(xs: seq<Spec>): (r: seq<Spec>)
    ensures SortedByVersion(r)
    ensures multiset(r) == multiset(xs)
    ensures |r| == |xs|
  {
    if |xs| == 0 then []
    else
      assert xs == [xs[0]] + xs[1..];
      InsertByVersion(xs[0], SortByVersion(xs[1..]))
  }

  /** The last element of the version-sorted candidates: a candidate of
      the highest version. */
  function Latest(xs: seq<Spec>): (m: Spec)
    requires |xs| > 0
    ensures IsHighest(m, xs)
  {
    var sorted := SortByVersion(xs);
    var m := sorted[|sorted| - 1];
    assert m in multiset(sorted);
    forall c | c in xs
      ensures c.version <= m.version
    {
      assert c in multiset(sorted);
      var k :| 0 <= k < |sorted| && sorted[k] == c;
    }
    m
  }

  /** When one candidate is strictly newer than every other, it is the one
      chosen: only ties between versions leave the choice open. */
  lemma LatestIsUniqueHighest(xs: seq<Spec>, m: Spec)
    requires m in xs
    requires forall c :: c in xs && c != m ==> c.version < m.version
    ensures Latest(xs) == m
  {
  }

  /** The highest-versioned element, a later one winning a tie: the
      element `sort_by` followed by `last` yields when the sort keeps equal
      versions in their original order. */
  function LastHighest(xs: seq<Spec>): (m: Spec)
    requires |xs| > 0
    ensures IsHighest(m, xs)
    ensures exists k :: 0 <= k < |xs| && xs[k] == m &&
              forall j :: k < j < |xs| ==> xs[j].version < m.version
    decreases |xs|
  {
    if |xs| == 1 then xs[0]
    else
      var m := LastHighest(xs[1..]);
      assert xs == [xs[0]] + xs[1..];
      var k :| 0 <= k < |xs[1..]| && xs[1..][k] == m &&
               forall j :: k < j < |xs[1..]| ==> xs[1..][j].version < m.version;
      assert forall j :: k + 1 < j < |xs| ==> xs[j] == xs[1..][j - 1];
      if m.version < xs[0].version then xs[0] else m
  }

  /** The last element of `InsertByVersion(s, ys)` is `s` exactly when `s`
      is strictly newer than everything in `ys`. */
  lemma {:induction false} LastOfInsert(s: Spec, ys: seq<Spec>)
    requires |ys| > 0 && SortedByVersion(ys)
    ensures var r := InsertByVersion(s, ys);
            r[|r| - 1] == if ys[|ys| - 1].version < s.version then s else ys[|ys| - 1]
    decreases |ys|
  {
    if s.version <= ys[0].version {
    } else if |ys| > 1 {
      LastOfInsert(s, ys[1..]);
    }
  }

  /** `Latest` taken one candidate at a time from the front. */
  lemma LatestStep(xs: seq<Spec>)
    requires |xs| > 1
    ensures var m := Latest(xs[1..]);
            Latest(xs) == if m.version < xs[0].version then xs[0] else m
  {
    var sorted := SortByVersion(xs[1..]);
    assert Latest(xs[1..]) == sorted[|sorted| - 1];
    LastOfInsert(xs[0], sorted);
    assert SortByVersion(xs) == InsertByVersion(xs[0], sorted);
  }

  /** The model's tie policy: of several candidates of the highest
      version, the one found last wins. */
  lemma {:induction false} LatestIsLastHighest(xs: seq<Spec>)
    requires |xs| > 0
    ensures Latest(xs) == LastHighest(xs)
    decreases |xs|
  {
    if |xs| > 1 {
      LatestIsLastHighest(xs[1..]);
      LatestStep(xs);
    }
  }
}
