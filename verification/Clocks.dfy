/** Clock checks by majority: every node's clock against the other nodes' and
    this machine's, and this machine's against the nodes'. */
module Clocks {
  import opened Sorting
  import opened SortedStrings
  import opened Strings
  import opened Common

  /** Who votes: this machine, at offset 0, and every readable node. */
  datatype Voter = Machine | Node(name: string)

  predicate Far(d: int, threshold: int)
  {
    d > threshold || d < -threshold
  }

  function OffsetOf(off: map<string, int>, v: Voter): int
    requires v.Node? ==> v.name in off
  {
    if v.Machine? then 0 else off[v.name]
  }

  function Voters(off: map<string, int>): set<Voter>
  {
    {Machine} + set n | n in off :: Node(n)
  }

  /** The other voters whose clock is too far from n's. */
  function Apart(off: map<string, int>, threshold: int, n: string): set<Voter>
    requires n in off
  {
    ApartAmong(off, threshold, n, Voters(off))
  }

  function ApartAmong(off: map<string, int>, threshold: int, n: string, voters: set<Voter>): set<Voter>
    requires n in off
  {
    set v | v in voters && IsApart(off, threshold, n, v)
  }

  predicate IsApart(off: map<string, int>, threshold: int, n: string, v: Voter)
    requires n in off
  {
    v in Voters(off) && v != Node(n) && Far(off[n] - OffsetOf(off, v), threshold)
  }

  /** Most of the other voters say that n's clock is off. */
  predicate Flagged(off: map<string, int>, threshold: int, n: string)
    requires n in off
  {
    2 * |Apart(off, threshold, n)| > |off|
  }

  lemma {:induction false} NodesCount(names: set<string>)
    ensures |set n | n in names :: Node(n)| == |names|
    decreases names
  {
    if names != {} {
      var n :| n in names;
      NodesCount(names - {n});
      assert (set m | m in names :: Node(m)) == (set m | m in names - {n} :: Node(m)) + {Node(n)};
    }
  }

  lemma VotersCount(off: map<string, int>)
    ensures |Voters(off)| == |off| + 1
  {
    NodesCount(off.Keys);
    assert (set n | n in off :: Node(n)) == set n | n in off.Keys :: Node(n);
    assert Voters(off) == {Machine} + set n | n in off.Keys :: Node(n);
  }

  /** A node is flagged when more than half of the others, this machine at 0
      among them, are further from it than the threshold. */
  lemma FlaggedIff(off: map<string, int>, threshold: int, n: string)
    requires n in off
    ensures Flagged(off, threshold, n) <==>
      var far := set m | m in off && m != n && (off[n] - off[m] > threshold || off[n] - off[m] < -threshold);
      2 * (|far| + if off[n] > threshold || off[n] < -threshold then 1 else 0) > |off|
  {
    var far := set m | m in off && m != n && (off[n] - off[m] > threshold || off[n] - off[m] < -threshold);
    var nodes := set m | m in far :: Node(m);
    NodesCount(far);
    if off[n] > threshold || off[n] < -threshold {
      assert Apart(off, threshold, n) == nodes + {Machine};
    } else {
      assert Apart(off, threshold, n) == nodes;
    }
  }

  ghost predicate Agree(off: map<string, int>, threshold: int, group: set<Voter>)
    requires group <= Voters(off)
  {
    forall v, w :: v in group && w in group && v != w ==> !Far(OffsetOf(off, v) - OffsetOf(off, w), threshold)
  }

  ghost predicate FarFromAll(off: map<string, int>, threshold: int, n: string, group: set<Voter>)
    requires n in off && group <= Voters(off)
  {
    forall v :: v in group ==> Far(off[n] - OffsetOf(off, v), threshold)
  }

  /** When a strict majority of the voters agrees, none of its nodes is flagged
      and every node too far from all of it is. */
  lemma MajorityDecides(off: map<string, int>, threshold: int, group: set<Voter>)
    requires group <= Voters(off) && 2 * |group| > |Voters(off)| && Agree(off, threshold, group)
    ensures forall n :: n in off && Node(n) in group ==> !Flagged(off, threshold, n)
    ensures forall n :: n in off && Node(n) !in group && FarFromAll(off, threshold, n, group) ==>
      Flagged(off, threshold, n)
  {
    VotersCount(off);
    forall n | n in off && Node(n) in group
      ensures !Flagged(off, threshold, n)
    {
      assert Apart(off, threshold, n) <= Voters(off) - group;
      SubsetSize(Apart(off, threshold, n), Voters(off) - group);
      SubsetSize(group, Voters(off));
    }
    forall n | n in off && Node(n) !in group && FarFromAll(off, threshold, n, group)
      ensures Flagged(off, threshold, n)
    {
      assert group <= Apart(off, threshold, n);
      SubsetSize(group, Apart(off, threshold, n));
    }
  }

  // ----- this machine against the nodes

  function Count(ds: seq<int>, p: int -> bool): nat
  {
    multiset(MapSeq(ds, p))[true]
  }

  function TooFar(threshold: int): int -> bool { d => Far(d, threshold) }
  function Ahead(threshold: int): int -> bool { d => d > threshold }
  function Behind(threshold: int): int -> bool { d => d < -threshold }

  predicate IntBefore(a: int, b: int) { a < b }

  ghost predicate Ascending(ds: seq<int>)
  {
    forall i, j :: 0 <= i < j < |ds| ==> ds[i] <= ds[j]
  }

  function Median(ds: seq<int>): int
    requires ds != []
  {
    ds[|ds| / 2]
  }

  lemma {:induction false} CountAround(bs: seq<bool>, k: nat)
    requires k < |bs|
    ensures (forall i :: k <= i < |bs| ==> bs[i]) ==> multiset(bs)[true] >= |bs| - k
    ensures (forall i :: 0 <= i <= k ==> !bs[i]) ==> multiset(bs)[true] <= |bs| - k - 1
    ensures (forall i :: 0 <= i <= k ==> bs[i]) ==> multiset(bs)[true] >= k + 1
    ensures (forall i :: k <= i < |bs| ==> !bs[i]) ==> multiset(bs)[true] <= k
    decreases |bs|
  {
    var init, last := bs[..|bs| - 1], bs[|bs| - 1];
    assert bs == init + [last];
    assert multiset(bs) == multiset(init) + multiset{last};
    assert |multiset(init)| == |init|;
    if k < |init| {
      CountAround(init, k);
    } else if |init| > 0 {
      CountAround(init, k - 1);
    }
  }

  lemma MedianIsAheadIff(ds: seq<int>, threshold: int)
    requires ds != [] && Ascending(ds)
    ensures Median(ds) > threshold <==> 2 * Count(ds, Ahead(threshold)) >= |ds|
  {
    var k := |ds| / 2;
    assert forall i :: 0 <= i <= k ==> ds[i] <= ds[k];
    assert forall i :: k <= i < |ds| ==> ds[k] <= ds[i];
    CountAround(MapSeq(ds, Ahead(threshold)), k);
  }

  lemma MedianIsBehindIff(ds: seq<int>, threshold: int)
    requires ds != [] && Ascending(ds)
    ensures Median(ds) < -threshold <==> 2 * Count(ds, Behind(threshold)) > |ds|
  {
    var k := |ds| / 2;
    assert forall i :: 0 <= i <= k ==> ds[i] <= ds[k];
    assert forall i :: k <= i < |ds| ==> ds[k] <= ds[i];
    CountAround(MapSeq(ds, Behind(threshold)), k);
  }

  /** The reported offset is really too far exactly when at least half of the
      nodes are too far ahead or more than half too far behind. */
  lemma MedianIsFarIff(ds: seq<int>, threshold: int)
    requires ds != [] && Ascending(ds) && threshold >= 0
    ensures Far(Median(ds), threshold) <==>
      2 * Count(ds, Ahead(threshold)) >= |ds| || 2 * Count(ds, Behind(threshold)) > |ds|
  {
    MedianIsAheadIff(ds, threshold);
    MedianIsBehindIff(ds, threshold);
  }

  lemma CountSnoc(ds: seq<int>, d: int, p: int -> bool)
    ensures Count(ds + [d], p) == Count(ds, p) + if p(d) then 1 else 0
  {
    assert MapSeq(ds + [d], p) == MapSeq(ds, p) + [p(d)];
  }

  lemma CountOfPermutation(ds: seq<int>, ds': seq<int>, p: int -> bool)
    requires multiset(ds) == multiset(ds')
    ensures Count(ds, p) == Count(ds', p)
  {
    MapKeepsMultiset(ds, ds', p);
  }

  lemma NoneCounted(p: int -> bool)
    ensures Count([], p) == 0
  {
    assert MapSeq([], p) == [];
  }

  lemma {:induction false} CountSplits(ds: seq<int>, threshold: int)
    requires threshold >= 0
    ensures Count(ds, TooFar(threshold)) == Count(ds, Ahead(threshold)) + Count(ds, Behind(threshold))
  {
    hide Count;
    if ds != [] {
      var init, d := ds[..|ds| - 1], ds[|ds| - 1];
      CountSplits(init, threshold);
      assert ds == init + [d];
      CountSnoc(init, d, TooFar(threshold));
      CountSnoc(init, d, Ahead(threshold));
      CountSnoc(init, d, Behind(threshold));
    } else {
      NoneCounted(TooFar(threshold));
      NoneCounted(Ahead(threshold));
      NoneCounted(Behind(threshold));
    }
  }

  lemma CountedIsThere(ds: seq<int>, p: int -> bool)
    requires Count(ds, p) > 0
    ensures exists i :: 0 <= i < |ds| && p(ds[i])
  {
    InMultiset(MapSeq(ds, p), true);
  }

  /** No two of the offsets are too far apart. */
  ghost predicate NodesAgree(ds: seq<int>, threshold: int)
  {
    forall i, j :: 0 <= i < |ds| && 0 <= j < |ds| ==> !Far(ds[i] - ds[j], threshold)
  }

  /** The nodes agree exactly when the first and the last do. */
  lemma NodesAgreeIff(ds: seq<int>, threshold: int)
    requires ds != [] && Ascending(ds)
    ensures NodesAgree(ds, threshold) <==> ds[|ds| - 1] - ds[0] <= threshold
  {
    if ds[|ds| - 1] - ds[0] <= threshold {
      forall i, j | 0 <= i < |ds| && 0 <= j < |ds|
        ensures !Far(ds[i] - ds[j], threshold)
      {
        assert ds[0] <= ds[i] <= ds[|ds| - 1] && ds[0] <= ds[j] <= ds[|ds| - 1];
      }
    }
  }

  /** When the nodes do agree among themselves the report is right. */
  lemma AgreeingNodesReportFar(ds: seq<int>, threshold: int)
    requires ds != [] && Ascending(ds) && threshold >= 0 && ds[|ds| - 1] - ds[0] <= threshold
    requires 2 * Count(ds, TooFar(threshold)) > |ds|
    ensures Far(Median(ds), threshold)
  {
    NodesAgreeIff(ds, threshold);
    CountSplits(ds, threshold);
    if Count(ds, Ahead(threshold)) > 0 { CountedIsThere(ds, Ahead(threshold)); }
    if Count(ds, Behind(threshold)) > 0 { CountedIsThere(ds, Behind(threshold)); }
    MedianIsFarIff(ds, threshold);
  }

  // ----- the check

  /** ds are the nodes' offsets, in some order. */
  ghost predicate OffsetsOf(off: map<string, int>, names: seq<string>, ds: seq<int>)
  {
    && Enumerates(names, off)
    && multiset(ds) == multiset(MapSeq(names, (n: string) => if n in off then off[n] else 0))
  }

  /** The machine is reported when more nodes are too far from it than not,
      with the median of the nodes' offsets. */
  ghost predicate MachineHolds(off: map<string, int>, ds: seq<int>, threshold: int, machine: Option<int>)
  {
    && Ascending(ds)
    && machine == if |off| >= 2 && ds != [] && 2 * Count(ds, TooFar(threshold)) > |ds| then Some(Median(ds)) else None
  }

  /** More nodes too far than not does not make them agree, nor the reported
      offset one of them: with one node behind, one right and one ahead the
      machine is reported, at an offset of 0. */
  lemma FarNodesMayDisagree(threshold: nat)
    ensures var off := map["a" := -(threshold + 1), "b" := 0, "c" := threshold + 1];
      var ds := [-(threshold + 1), 0, threshold + 1];
      && OffsetsOf(off, ["a", "b", "c"], ds) && MachineHolds(off, ds, threshold, Some(0))
      && !NodesAgree(ds, threshold)
  {
    hide Count, NodesAgree, Enumerates;
    var off := map["a" := -(threshold + 1), "b" := 0, "c" := threshold + 1];
    var names, ds := ["a", "b", "c"], [-(threshold + 1), 0, threshold + 1];
    TwoOfThreeFar(threshold);
    ThreeKeys(off, -(threshold + 1), 0, threshold + 1);
    NodesAgreeIff(ds, threshold);
    assert ds == MapSeq(names, (n: string) => if n in off then off[n] else 0);
  }

  lemma TwoOfThreeFar(threshold: nat)
    ensures Count([-(threshold + 1), 0, threshold + 1], TooFar(threshold)) == 2
  {
    assert MapSeq([-(threshold + 1), 0, threshold + 1], TooFar(threshold)) == [true, false, true];
  }

  lemma ThreeKeys(off: map<string, int>, x: int, y: int, z: int)
    requires off == map["a" := x, "b" := y, "c" := z]
    ensures Enumerates(["a", "b", "c"], off)
  {
    assert off.Keys == {"a", "b", "c"};
    assert |off| == |off.Keys|;
  }

  lemma OneMoreVoter(off: map<string, int>, threshold: int, n: string, seen: set<Voter>, v: Voter)
    requires n in off && v !in seen
    ensures |ApartAmong(off, threshold, n, seen + {v})| == |ApartAmong(off, threshold, n, seen)|
      + if IsApart(off, threshold, n, v) then 1 else 0
  {
    hide IsApart;
    var now, before := ApartAmong(off, threshold, n, seen + {v}), ApartAmong(off, threshold, n, seen);
    if IsApart(off, threshold, n, v) {
      assert now == before + {v};
    } else {
      assert now == before;
    }
  }

  ghost function Seen(names: seq<string>): set<Voter>
  {
    {Machine} + set n | n in names :: Node(n)
  }

  ghost predicate Enumerates(names: seq<string>, off: map<string, int>)
  {
    && |names| == |off| && (forall n :: n in names <==> n in off)
    && forall i, j :: 0 <= i < j < |names| ==> names[i] != names[j]
  }

  /** How many of the first i nodes, and this machine, are apart from n. */
  ghost function ApartCount(off: map<string, int>, names: seq<string>, threshold: int, n: string, i: nat): nat
    requires n in off && i <= |names|
  {
    |ApartAmong(off, threshold, n, Seen(names[..i]))|
  }

  lemma FirstVoter(off: map<string, int>, names: seq<string>, threshold: int, n: string)
    requires n in off
    ensures ApartCount(off, names, threshold, n, 0) == if Far(off[n], threshold) then 1 else 0
  {
    OneMoreVoter(off, threshold, n, {}, Machine);
    assert ApartAmong(off, threshold, n, {}) == {} && {} + {Machine} == Seen(names[..0]);
  }

  lemma NextVoter(off: map<string, int>, names: seq<string>, threshold: int, n: string, i: nat)
    requires n in off && Enumerates(names, off) && i < |names|
    ensures names[i] in off
    ensures ApartCount(off, names, threshold, n, i + 1) == ApartCount(off, names, threshold, n, i)
      + if names[i] != n && Far(off[n] - off[names[i]], threshold) then 1 else 0
  {
    hide ApartAmong;
    assert names[..i + 1] == names[..i] + [names[i]] && names[i] in names;
    assert Seen(names[..i + 1]) == Seen(names[..i]) + {Node(names[i])};
    OneMoreVoter(off, threshold, n, Seen(names[..i]), Node(names[i]));
  }

  lemma AllVoters(off: map<string, int>, names: seq<string>, threshold: int, n: string)
    requires n in off && Enumerates(names, off)
    ensures ApartCount(off, names, threshold, n, |names|) == |Apart(off, threshold, n)|
  {
    assert names[..|names|] == names;
    assert Seen(names) == Voters(off);
  }

  /** How many of the other voters are apart from n, and how many there are. */
  method CountApart(off: map<string, int>, names: seq<string>, threshold: int, n: string)
    returns (apart: nat, voters: nat)
    requires n in off && Enumerates(names, off)
    ensures apart == |Apart(off, threshold, n)| && voters == |off|
  {
    hide ApartCount, Far;
    apart, voters := 0, 1;
    FirstVoter(off, names, threshold, n);
    if Far(off[n], threshold) { apart := apart + 1; }
    ghost var at: nat :| at < |names| && names[at] == n;
    for i := 0 to |names|
      invariant voters == i + (if i > at then 0 else 1)
      invariant apart == ApartCount(off, names, threshold, n, i)
    {
      var o := names[i];
      NextVoter(off, names, threshold, n, i);
      if o != n {
        voters := voters + 1;
        if Far(off[n] - off[o], threshold) {
          apart := apart + 1;
        }
      }
    }
    AllVoters(off, names, threshold, n);
  }

  /** flagged are the flagged ones among these names, in order. */
  ghost predicate FlaggedAmong(off: map<string, int>, threshold: int, names: seq<string>, flagged: seq<string>)
  {
    && (forall n :: n in flagged <==> n in names && n in off && Flagged(off, threshold, n))
    && forall i, j :: 0 <= i < j < |flagged| ==> Less(flagged[i], flagged[j])
  }

  lemma BeforeInOrder(names: seq<string>, i: nat)
    requires i < |names|
    requires forall j, k :: 0 <= j < k < |names| ==> names[j] != names[k] && AtMost(names[j], names[k])
    ensures forall n :: n in names[..i] ==> Less(n, names[i])
  {
    forall j | 0 <= j < i
      ensures Less(names[j], names[i])
    {
      LessTrichotomy(names[j], names[i]);
    }
  }

  lemma FlagNext(off: map<string, int>, threshold: int, names: seq<string>, i: nat, flagged: seq<string>)
    requires i < |names| && names[i] in off && FlaggedAmong(off, threshold, names[..i], flagged)
    requires forall j, k :: 0 <= j < k < |names| ==> names[j] != names[k] && AtMost(names[j], names[k])
    ensures FlaggedAmong(off, threshold, names[..i + 1],
      if |Apart(off, threshold, names[i])| * 2 > |off| then flagged + [names[i]] else flagged)
  {
    assert Flagged(off, threshold, names[i]) <==> |Apart(off, threshold, names[i])| * 2 > |off|;
    assert names[..i + 1] == names[..i] + [names[i]];
    BeforeInOrder(names, i);
    hide Flagged, Apart, Less;
    assert forall n :: n in flagged ==> Less(n, names[i]);
  }

  /** The nodes most of the others are far from, in the order of the names. */
  method FlagNodes(off: map<string, int>, names: seq<string>, threshold: int) returns (flagged: seq<string>)
    requires Enumerates(names, off)
    requires forall j, k :: 0 <= j < k < |names| ==> names[j] != names[k] && AtMost(names[j], names[k])
    ensures FlaggedAmong(off, threshold, names, flagged)
  {
    flagged := [];
    assert forall n :: n in names <==> n in off;
    assert FlaggedAmong(off, threshold, names[..0], flagged);
    hide *;
    for i := 0 to |names|
      invariant FlaggedAmong(off, threshold, names[..i], flagged)
    {
      assert names[i] in names;
      var apart, voters := CountApart(off, names, threshold, names[i]);
      FlagNext(off, threshold, names, i, flagged);
      if apart * 2 > voters { flagged := flagged + [names[i]]; }
    }
    assert names[..|names|] == names;
  }

  /** The nodes flagged, and this machine's offset when most nodes are far
      from it. Nodes that could not be read do not take part. */
  method EvalClocks(nodes: map<string, Option<int>>, threshold: int)
    returns (off: map<string, int>, flagged: seq<string>, machine: Option<int>)
    ensures forall n, d :: n in off && off[n] == d <==> n in nodes && nodes[n] == Some(d)
    ensures forall n :: n in flagged <==> n in off && Flagged(off, threshold, n)
    ensures forall i, j :: 0 <= i < j < |flagged| ==> Less(flagged[i], flagged[j])
    ensures exists names, ds :: OffsetsOf(off, names, ds) && MachineHolds(off, ds, threshold, machine)
  {
    off := map n | n in nodes && nodes[n].Some? :: nodes[n].value;
    var names := SortedKeys(off);
    assert Enumerates(names, off);
    hide Apart, Flagged, Enumerates, OffsetsOf, MachineHolds, Less;
    flagged := FlagNodes(off, names, threshold);
    assert forall n :: n in off ==> n in names;
    var ds: seq<int>;
    machine, ds := EvalMachine(off, names, threshold);
  }

  method EvalMachine(off: map<string, int>, names: seq<string>, threshold: int)
    returns (machine: Option<int>, ds: seq<int>)
    requires Enumerates(names, off)
    ensures OffsetsOf(off, names, ds) && MachineHolds(off, ds, threshold, machine)
  {
    hide Count;
    ds := [];
    var apart := 0;
    NoneCounted(TooFar(threshold));
    ghost var get := (n: string) => if n in off then off[n] else 0;
    for i := 0 to |names|
      invariant ds == MapSeq(names[..i], get)
      invariant apart == Count(ds, TooFar(threshold))
    {
      assert names[..i + 1] == names[..i] + [names[i]];
      var d := off[names[i]];
      CountSnoc(ds, d, TooFar(threshold));
      ds := ds + [d];
      if Far(d, threshold) { apart := apart + 1; }
    }
    assert names[..|names|] == names;
    ghost var unsorted := ds;
    ds := SortSlice(ds, IntBefore);
    CountOfPermutation(ds, unsorted, TooFar(threshold));
    SameLength(ds, unsorted);
    if |names| < 2 {
      return None, ds;
    }
    if apart * 2 > |names| {
      return Some(ds[|ds| / 2]), ds;
    }
    return None, ds;
  }
}
