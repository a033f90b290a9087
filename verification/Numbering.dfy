/** The file a bootstrapped kubeconfig is written to: the loop that numbers
    the name until it no longer belongs to another cluster. */
module Numbering {
  import opened Common
  import opened Numerals
  import opened Strings

  const YAML := ".yaml"

  /** The i-th name tried: base itself, then numbered from 2. */
  function NameTried(base: string, i: nat): string
    requires i >= 1
  {
    if i == 1 then base else TrimSuffix(base, YAML) + "-" + Decimal(i) + YAML
  }

  /** The name is free, or its file already belongs to this cluster. */
  ghost predicate Usable(owner: map<string, string>, ca: string, path: string)
  {
    path in owner ==> ca != "" && owner[path] == ca
  }

  /** The first name is the base itself; later ones carry their number before
      the extension, which is added where the base has none. */
  lemma NamesSpelled(stem: string, i: nat)
    requires i >= 1
    ensures NameTried(stem + ".yaml", i) == if i == 1 then stem + ".yaml" else stem + "-" + Decimal(i) + ".yaml"
    ensures !HasSuffix(stem, ".yaml") ==>
      NameTried(stem, i) == if i == 1 then stem else stem + "-" + Decimal(i) + ".yaml"
  {
    assert (stem + ".yaml")[..|stem|] == stem && (stem + ".yaml")[|stem|..] == ".yaml";
  }

  /** A name is never tried twice. */
  lemma NamesDiffer(base: string, i: nat, j: nat)
    requires 1 <= i < j
    ensures NameTried(base, i) != NameTried(base, j)
  {
    var stem := TrimSuffix(base, YAML);
    var b := NameTried(base, j);
    assert b == stem + ("-" + Decimal(j) + YAML);
    if i == 1 {
      if HasSuffix(base, YAML) {
        assert base == stem + YAML;
        assert |b| > |base|;
      }
    } else {
      var a := NameTried(base, i);
      if a == b {
        assert a == stem + ("-" + Decimal(i) + YAML);
        assert a[|stem|..] == "-" + Decimal(i) + YAML && b[|stem|..] == "-" + Decimal(j) + YAML;
        assert ("-" + Decimal(i) + YAML)[1..|a| - |stem| - |YAML|] == Decimal(i);
        assert ("-" + Decimal(j) + YAML)[1..|b| - |stem| - |YAML|] == Decimal(j);
        NumeralInjective(i, j, 10);
      }
    }
  }

  ghost function NamesUpTo(base: string, n: nat): set<string>
  {
    if n == 0 then {} else NamesUpTo(base, n - 1) + {NameTried(base, n)}
  }

  lemma {:induction false} NamesAreDistinct(base: string, n: nat, m: nat)
    requires n < m
    ensures |NamesUpTo(base, n)| == n && NameTried(base, m) !in NamesUpTo(base, n)
  {
    if n > 0 {
      NamesAreDistinct(base, n - 1, n);
      NamesAreDistinct(base, n - 1, m);
      NamesDiffer(base, n, m);
    }
  }

  /** As many distinct names, all taken, cannot exceed the taken files. */
  lemma Pigeonhole(owner: map<string, string>, base: string, n: nat)
    requires forall i: nat :: 1 <= i <= n ==> NameTried(base, i) in owner
    ensures n <= |owner|
  {
    NamesAreDistinct(base, n, n + 1);
    NamesTaken(owner, base, n);
    SubsetSize(NamesUpTo(base, n), owner.Keys);
  }

  lemma {:induction false} NamesTaken(owner: map<string, string>, base: string, n: nat)
    requires forall i: nat :: 1 <= i <= n ==> NameTried(base, i) in owner
    ensures NamesUpTo(base, n) <= owner.Keys
  {
    if n > 0 { NamesTaken(owner, base, n - 1); }
  }

  /** The loop ends, after at most one name more than there are files, with
      the first usable name: another cluster's file is never chosen. */
  method ChoosePath(owner: map<string, string>, ca: string, base: string) returns (path: string, ghost n: nat)
    ensures 1 <= n <= |owner| + 1 && path == NameTried(base, n)
    ensures path in owner ==> ca != "" && owner[path] == ca
    ensures forall k: nat :: 1 <= k < n ==> !Usable(owner, ca, NameTried(base, k))
  {
    path := base;
    var i := 2;
    while true
      invariant i >= 2 && path == NameTried(base, i - 1)
      invariant forall k: nat :: 1 <= k < i - 1 ==> !Usable(owner, ca, NameTried(base, k))
      decreases |owner| + 3 - i
    {
      Pigeonhole(owner, base, i - 2);
      if path !in owner || (ca != "" && owner[path] == ca) {
        n := i - 1;
        return;
      }
      path := TrimSuffix(base, YAML) + "-" + Decimal(i) + YAML;
      i := i + 1;
      Pigeonhole(owner, base, i - 2);
    }
  }

  /** The owners of the known files; of two entries for a path the last. */
  method Owners(known: seq<(string, string)>) returns (owner: map<string, string>)
    ensures forall p :: p in owner <==> exists k :: 0 <= k < |known| && known[k].0 == p
    ensures forall k :: 0 <= k < |known| && (forall j :: k < j < |known| ==> known[j].0 != known[k].0) ==>
      known[k].0 in owner && owner[known[k].0] == known[k].1
  {
    owner := map[];
    for i := 0 to |known|
      invariant forall p :: p in owner <==> exists k :: 0 <= k < i && known[k].0 == p
      invariant forall k :: 0 <= k < i && (forall j :: k < j < i ==> known[j].0 != known[k].0) ==>
        known[k].0 in owner && owner[known[k].0] == known[k].1
    {
      owner := owner[known[i].0 := known[i].1];
    }
  }
}
