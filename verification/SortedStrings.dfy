/** Strings in sorted order. */
module SortedStrings {
  import opened Strings
  import opened Sorting

  predicate StringBefore(a: string, b: string) { Less(a, b) }

  lemma StringBeforeIsAnOrder()
    ensures StrictWeak(StringBefore)
  {
    forall a: string, b: string | StringBefore(a, b)
      ensures !StringBefore(b, a)
    {
      LessTrichotomy(a, b);
    }
    forall a: string, b: string, c: string | StringBefore(a, c)
      ensures StringBefore(a, b) || StringBefore(b, c)
    {
      if AtMost(b, a) && AtMost(c, b) { AtMostTransitive(c, b, a); }
    }
  }

  lemma DistinctOfSet<T>(s: seq<T>, keys: set<T>)
    requires multiset(s) == multiset(keys)
    ensures |s| == |keys| && (forall k :: k in s <==> k in keys)
    ensures forall i, j :: 0 <= i < j < |s| ==> s[i] != s[j]
  {
    assert |multiset(s)| == |s|;
    forall k
      ensures k in s <==> k in keys
    {
      InMultiset(s, k);
    }
    forall i, j | 0 <= i < j < |s|
      ensures s[i] != s[j]
    {
      assert s == s[..i] + [s[i]] + s[i + 1..j] + [s[j]] + s[j + 1..];
      assert multiset(s)[s[i]] <= 1;
    }
  }

  /** strutil.SortedKeys: the map gives its keys in whatever order. */
  method SortedKeys<V>(m: map<string, V>) returns (keys: seq<string>)
    ensures |keys| == |m| && forall k :: k in keys <==> k in m
    ensures forall i, j :: 0 <= i < j < |keys| ==> keys[i] != keys[j] && AtMost(keys[i], keys[j])
  {
    keys := [];
    var rest := m.Keys;
    ghost var taken: set<string> := {};
    while rest != {}
      invariant rest !! taken && rest + taken == m.Keys
      invariant multiset(keys) == multiset(taken)
      decreases rest
    {
      var k :| k in rest;
      keys, rest, taken := keys + [k], rest - {k}, taken + {k};
    }
    assert taken == m.Keys;
    StringBeforeIsAnOrder();
    keys := SortSlice(keys, StringBefore);
    DistinctOfSet(keys, m.Keys);
  }
}
