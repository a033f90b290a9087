/** The library sort the source calls, as a stable insertion sort. */
module Sorting {

  /** "Comes before" as sort functions expect it. */
  ghost predicate StrictWeak<T(!new)>(before: (T, T) -> bool)
  {
    && (forall x, y :: before(x, y) ==> !before(y, x))
    && (forall x, y, z :: before(x, z) ==> before(x, y) || before(y, z))
  }

  ghost predicate Ordered<T>(s: seq<T>, before: (T, T) -> bool)
  {
    forall i, j :: 0 <= i < j < |s| ==> !before(s[j], s[i])
  }

  /** x goes after every element it does not come before. */
  function Place<T>(s: seq<T>, x: T, before: (T, T) -> bool): (r: seq<T>)
    ensures |r| == |s| + 1
  {
    if s == [] then [x]
    else
      var last := s[|s| - 1];
      if before(x, last) then Place(s[..|s| - 1], x, before) + [last] else s + [x]
  }

  /** sort.SliceStable */
  function StableSort<T>(s: seq<T>, before: (T, T) -> bool): (r: seq<T>)
    ensures |r| == |s|
  {
    if s == [] then [] else Place(StableSort(s[..|s| - 1], before), s[|s| - 1], before)
  }

  lemma {:induction false} PlaceKeeps<T>(s: seq<T>, x: T, before: (T, T) -> bool)
    ensures multiset(Place(s, x, before)) == multiset(s) + multiset{x}
  {
    if s != [] && before(x, s[|s| - 1]) {
      var init := s[..|s| - 1];
      PlaceKeeps(init, x, before);
      assert s == init + [s[|s| - 1]];
    }
  }

  lemma {:induction false} SortKeeps<T>(s: seq<T>, before: (T, T) -> bool)
    ensures multiset(StableSort(s, before)) == multiset(s)
  {
    if s != [] {
      var init := s[..|s| - 1];
      SortKeeps(init, before);
      PlaceKeeps(StableSort(init, before), s[|s| - 1], before);
      assert s == init + [s[|s| - 1]];
    }
  }

  lemma {:induction false} PlaceOrders<T(!new)>(s: seq<T>, x: T, before: (T, T) -> bool)
    requires StrictWeak(before) && Ordered(s, before)
    ensures Ordered(Place(s, x, before), before)
  {
    if s != [] {
      var init, last := s[..|s| - 1], s[|s| - 1];
      if before(x, last) {
        PlaceOrders(init, x, before);
        var r := Place(init, x, before);
        PlaceKeeps(init, x, before);
        forall i | 0 <= i < |r|
          ensures !before(last, r[i])
        {
          assert r[i] in multiset(init) + multiset{x};
        }
      }
    }
  }

  lemma {:induction false} SortOrders<T(!new)>(s: seq<T>, before: (T, T) -> bool)
    requires StrictWeak(before)
    ensures Ordered(StableSort(s, before), before)
  {
    if s != [] {
      SortOrders(s[..|s| - 1], before);
      PlaceOrders(StableSort(s[..|s| - 1], before), s[|s| - 1], before);
    }
  }

  /** at lists where the elements of out stood in s, each place once, and those
      that tie come from s in their order. */
  ghost predicate StableFrom<T>(out: seq<T>, s: seq<T>, before: (T, T) -> bool, at: seq<nat>)
  {
    && |at| == |out| == |s|
    && (forall k :: 0 <= k < |at| ==> at[k] < |s| && out[k] == s[at[k]])
    && (forall k, m :: 0 <= k < m < |at| ==> at[k] != at[m])
    && forall k, m :: 0 <= k < m < |at| && !before(out[k], out[m]) ==> at[k] < at[m]
  }

  /** The place of x in s: what it comes before starts there. */
  ghost predicate SplitsAt<T>(s: seq<T>, x: T, before: (T, T) -> bool, p: nat)
  {
    && p <= |s|
    && (forall k :: 0 <= k < p ==> !before(x, s[k]))
    && (forall k :: p <= k < |s| ==> before(x, s[k]))
  }

  lemma PlaceAtEnd<T(!new)>(s: seq<T>, x: T, before: (T, T) -> bool)
    requires StrictWeak(before) && Ordered(s, before) && (s == [] || !before(x, s[|s| - 1]))
    ensures SplitsAt(s, x, before, |s|) && Place(s, x, before) == s + [x]
  {
    forall k | 0 <= k < |s|
      ensures !before(x, s[k])
    {
      if before(x, s[k]) { Between(x, s[|s| - 1], s[k], before); }
    }
    hide StrictWeak;
  }

  lemma Between<T(!new)>(x: T, y: T, z: T, before: (T, T) -> bool)
    requires StrictWeak(before) && before(x, z)
    ensures before(x, y) || before(y, z)
  {}

  lemma {:induction false} PlaceIsStable<T(!new)>(s: seq<T>, x: T, before: (T, T) -> bool) returns (p: nat)
    requires StrictWeak(before) && Ordered(s, before)
    ensures SplitsAt(s, x, before, p) && Place(s, x, before) == s[..p] + [x] + s[p..]
  {
    if s != [] && before(x, s[|s| - 1]) {
      var init, last := s[..|s| - 1], s[|s| - 1];
      p := PlaceIsStable(init, x, before);
      assert s == init + [last];
      assert s[p..] == init[p..] + [last] && s[..p] == init[..p];
    } else {
      p := |s|;
      PlaceAtEnd(s, x, before);
      assert s[p..] == [];
    }
  }

  /** The sort is stable: elements that tie keep their order. */
  lemma {:induction false} SortIsStable<T(!new)>(s: seq<T>, before: (T, T) -> bool) returns (at: seq<nat>)
    requires StrictWeak(before)
    ensures StableFrom(StableSort(s, before), s, before, at)
  {
    at := [];
    if s != [] {
      var n := |s| - 1;
      var init, out := s[..n], StableSort(s[..n], before);
      var at' := SortIsStable(init, before);
      SortOrders(init, before);
      var p := PlaceIsStable(out, s[n], before);
      at := at'[..p] + [n] + at'[p..];
      PlacedIsStable(s, out, before, at', p);
    }
  }

  lemma PlacedIsStable<T(!new)>(s: seq<T>, out: seq<T>, before: (T, T) -> bool, at: seq<nat>, p: nat)
    requires s != [] && StableFrom(out, s[..|s| - 1], before, at) && p <= |out|
    requires forall k :: p <= k < |out| ==> before(s[|s| - 1], out[k])
    ensures StableFrom(out[..p] + [s[|s| - 1]] + out[p..], s, before, at[..p] + [|s| - 1] + at[p..])
  {
    var n := |s| - 1;
    var out', at' := out[..p] + [s[n]] + out[p..], at[..p] + [n] + at[p..];
    forall k | 0 <= k < |at'|
      ensures at'[k] < |s| && out'[k] == s[at'[k]]
    {
      if k > p { assert at'[k] == at[k - 1] && out'[k] == out[k - 1]; }
    }
    forall k, m | 0 <= k < m < |at'|
      ensures at'[k] != at'[m] && (!before(out'[k], out'[m]) ==> at'[k] < at'[m])
    {
      if m == p {
        assert at'[k] == at[k];
      } else if k == p {
        assert at'[m] == at[m - 1] && out'[m] == out[m - 1];
      } else {
        var k', m' := if k < p then k else k - 1, if m < p then m else m - 1;
        assert at'[k] == at[k'] && out'[k] == out[k'] && at'[m] == at[m'] && out'[m] == out[m'];
      }
    }
  }

  /** sort.Slice promises an ordered permutation and nothing about ties. */
  method SortSlice<T(!new)>(s: seq<T>, before: (T, T) -> bool) returns (r: seq<T>)
    requires StrictWeak(before)
    ensures multiset(r) == multiset(s) && Ordered(r, before)
  {
    r := StableSort(s, before);
    SortKeeps(s, before);
    SortOrders(s, before);
  }

  // ----- permutations

  lemma InMultiset<T>(s: seq<T>, x: T)
    ensures x in s <==> x in multiset(s)
  {}

  function Without<T>(s: seq<T>, j: nat): (r: seq<T>)
    requires j < |s|
    ensures |r| == |s| - 1
  {
    s[..j] + s[j + 1..]
  }

  lemma WithoutOne<T>(s: seq<T>, j: nat)
    requires j < |s|
    ensures s[j] in multiset(s) && multiset(Without(s, j)) == multiset(s) - multiset{s[j]}
  {
    assert s == s[..j] + [s[j]] + s[j + 1..];
  }

  lemma AddBack<T>(a: multiset<T>, b: multiset<T>, x: T)
    requires x in a && x in b && a - multiset{x} == b - multiset{x}
    ensures a == b
  {
    assert a == (a - multiset{x}) + multiset{x} && b == (b - multiset{x}) + multiset{x};
  }

  function MapSeq<A, B>(s: seq<A>, f: A -> B): (r: seq<B>)
    ensures |r| == |s| && forall i :: 0 <= i < |s| ==> r[i] == f(s[i])
  {
    seq(|s|, i requires 0 <= i < |s| => f(s[i]))
  }

  lemma MapWithoutOne<A, B>(s: seq<A>, f: A -> B, j: nat)
    requires j < |s|
    ensures f(s[j]) in multiset(MapSeq(s, f))
    ensures multiset(MapSeq(Without(s, j), f)) == multiset(MapSeq(s, f)) - multiset{f(s[j])}
  {
    assert MapSeq(Without(s, j), f) == Without(MapSeq(s, f), j);
    WithoutOne(MapSeq(s, f), j);
  }

  lemma SameLength<T>(a: seq<T>, b: seq<T>)
    requires multiset(a) == multiset(b)
    ensures |a| == |b|
  {
    assert |multiset(a)| == |a| && |multiset(b)| == |b|;
  }

  lemma FindFirst<T>(a: seq<T>, b: seq<T>) returns (j: nat)
    requires a != [] && multiset(a) == multiset(b)
    ensures j < |b| && b[j] == a[0] && multiset(Without(a, 0)) == multiset(Without(b, j))
  {
    InMultiset(a, a[0]);
    InMultiset(b, a[0]);
    j :| 0 <= j < |b| && b[j] == a[0];
    WithoutOne(a, 0);
    WithoutOne(b, j);
  }

  /** Mapping a permutation gives a permutation. */
  lemma {:induction false} MapKeepsMultiset<A, B>(s: seq<A>, s': seq<A>, f: A -> B)
    requires multiset(s) == multiset(s')
    ensures multiset(MapSeq(s, f)) == multiset(MapSeq(s', f))
    decreases |s|
  {
    hide MapSeq, Without;
    SameLength(s, s');
    if s != [] {
      var j := FindFirst(s, s');
      MapKeepsMultiset(Without(s, 0), Without(s', j), f);
      MapWithoutOne(s, f, 0);
      MapWithoutOne(s', f, j);
      AddBack(multiset(MapSeq(s, f)), multiset(MapSeq(s', f)), f(s[0]));
    } else {
      assert MapSeq(s, f) == [] == MapSeq(s', f);
    }
  }
}
