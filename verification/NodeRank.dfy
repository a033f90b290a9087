/** Which node to recover a lost etcd cluster from: nodes ranked by the
    freshest raft state on their disks and in every node's log. */
module NodeRank {
  import opened Common
  import opened ProbeMerge
  import opened Sorting

  /** On-disk raft state; the zero value when there is none. */
  datatype Raft = Raft(snapTerm: nat, snapIndex: nat, walIndex: nat, walWrite: nat)

  const NO_RAFT := Raft(0, 0, 0, 0)

  /** What the triage knows of one node. Without a probe the local id is empty
      and there are no events. */
  datatype Triage = Triage(node: string, localID: string, member: Option<string>, raft: Raft, events: seq<LeaderEvent>)

  datatype Rank = Rank(
    node: string, memberID: string, leaderTerm: nat, leaderAt: nat, raft: Raft, lastElected: string, lastTerm: nat)

  // ----- elections

  /** Higher term, then later time. */
  predicate Later(term: nat, at: nat, term': nat, at': nat)
  {
    term > term' || (term == term' && at > at')
  }

  function LastLeader(events: seq<LeaderEvent>): Option<LeaderEvent>
  {
    if events == [] then None
    else
      var ev := events[|events| - 1];
      match LastLeader(events[..|events| - 1])
      case None => Some(ev)
      case Some(best) => if Later(ev.term, ev.time, best.term, best.time) then Some(ev) else Some(best)
  }

  method ComputeLastLeader(events: seq<LeaderEvent>) returns (best: Option<LeaderEvent>)
    ensures best == LastLeader(events)
  {
    best := None;
    for k := 0 to |events|
      invariant best == LastLeader(events[..k])
    {
      var ev := events[k];
      assert events[..k + 1][..k] == events[..k];
      if best.None? || Later(ev.term, ev.time, best.value.term, best.value.time) {
        best := Some(ev);
      }
    }
    assert events[..|events|] == events;
  }

  /** (term, at) is no later than (term', at'): an earlier term, or the same
      one and no later time. */
  ghost predicate NoLater(term: nat, at: nat, term': nat, at': nat)
  {
    term < term' || (term == term' && at <= at')
  }

  lemma LaterIff(term: nat, at: nat, term': nat, at': nat)
    ensures Later(term, at, term', at') <==> !NoLater(term, at, term', at')
  {}

  /** The last leader is the first of the latest events. */
  lemma {:induction false} LastLeaderIsLatest(events: seq<LeaderEvent>) returns (k: nat)
    requires events != []
    ensures k < |events| && LastLeader(events) == Some(events[k])
    ensures forall j :: 0 <= j < |events| ==> NoLater(events[j].term, events[j].time, events[k].term, events[k].time)
    ensures forall j :: 0 <= j < k ==> !NoLater(events[k].term, events[k].time, events[j].term, events[j].time)
  {
    var n := |events| - 1;
    k := n;
    if n > 0 {
      var m := LastLeaderIsLatest(events[..n]);
      if !Later(events[n].term, events[n].time, events[m].term, events[m].time) { k := m; }
    }
  }

  // ----- whose id is it

  /** t says that id belongs to its node. */
  ghost predicate Claims(t: Triage, id: string)
  {
    (t.localID != "" && id == t.localID) || t.member == Some(id)
  }

  function NodeOfID(recs: seq<Triage>): map<string, string>
  {
    if recs == [] then map[]
    else
      var t, ids := recs[|recs| - 1], NodeOfID(recs[..|recs| - 1]);
      var ids' := if t.localID != "" then ids[t.localID := t.node] else ids;
      if t.member.Some? then ids'[t.member.value := t.node] else ids'
  }

  /** No id is claimed for two nodes. */
  ghost predicate Consistent(recs: seq<Triage>)
  {
    forall t, u, id :: t in recs && u in recs && Claims(t, id) && Claims(u, id) ==> t.node == u.node
  }

  lemma {:induction false} IDsAreClaimed(recs: seq<Triage>)
    ensures forall id :: id in NodeOfID(recs) <==> exists t :: t in recs && Claims(t, id)
    ensures forall id :: id in NodeOfID(recs) ==> exists t :: t in recs && Claims(t, id) && t.node == NodeOfID(recs)[id]
  {
    if recs != [] {
      var init, t := recs[..|recs| - 1], recs[|recs| - 1];
      IDsAreClaimed(init);
      assert recs == init + [t];
      assert t in recs && forall u :: u in init ==> u in recs;
      assert forall u :: u in recs ==> u in init || u == t;
    }
  }

  // ----- the election evidence for one node

  /** All logs' events, each node's log being evidence about every node. */
  function AllEvents(recs: seq<Triage>): seq<LeaderEvent>
  {
    if recs == [] then [] else AllEvents(recs[..|recs| - 1]) + recs[|recs| - 1].events
  }

  predicate Names(ev: LeaderEvent, ids: map<string, string>, node: string)
  {
    ev.leader in ids && ids[ev.leader] == node
  }

  /** Latest (term, time) among the events that name the node, from (0, 0). */
  function Latest(events: seq<LeaderEvent>, ids: map<string, string>, node: string): (nat, nat)
  {
    if events == [] then (0, 0)
    else
      var ev, best := events[|events| - 1], Latest(events[..|events| - 1], ids, node);
      if Names(ev, ids, node) && Later(ev.term, ev.time, best.0, best.1) then (ev.term, ev.time) else best
  }

  /** best is the greatest (term, time) of the events that name the node. */
  ghost predicate IsLatest(events: seq<LeaderEvent>, ids: map<string, string>, node: string, best: (nat, nat))
  {
    && (forall ev :: ev in events && Names(ev, ids, node) ==> NoLater(ev.term, ev.time, best.0, best.1))
    && (best == (0, 0) || exists ev :: ev in events && Names(ev, ids, node) && best == (ev.term, ev.time))
  }

  lemma {:induction false} LatestIsLatest(events: seq<LeaderEvent>, ids: map<string, string>, node: string)
    ensures IsLatest(events, ids, node, Latest(events, ids, node))
  {
    if events != [] {
      var init, ev := events[..|events| - 1], events[|events| - 1];
      LatestIsLatest(init, ids, node);
      assert events == init + [ev];
      assert ev in events && forall e :: e in init ==> e in events;
      assert forall e :: e in events ==> e in init || e == ev;
    }
  }

  // ----- the ranking

  function MemberID(t: Triage): string
  {
    if t.localID != "" then t.localID else if t.member.Some? then t.member.value else ""
  }

  /** A node's entry before the election evidence is in. */
  function FirstEntry(t: Triage): Rank
  {
    match LastLeader(t.events)
    case None => Rank(t.node, MemberID(t), 0, 0, t.raft, "", 0)
    case Some(ev) => Rank(t.node, MemberID(t), 0, 0, t.raft, ev.leader, ev.term)
  }

  function Ranked(t: Triage, events: seq<LeaderEvent>, ids: map<string, string>): Rank
  {
    var best := Latest(events, ids, t.node);
    FirstEntry(t).(leaderTerm := best.0, leaderAt := best.1)
  }

  /** Every node's entry, in the order of the records. */
  function Evidence(recs: seq<Triage>): (r: seq<Rank>)
    ensures |r| == |recs|
  {
    seq(|recs|, i requires 0 <= i < |recs| => Ranked(recs[i], AllEvents(recs), NodeOfID(recs)))
  }

  /** Fresher data first: election term, then on-disk snapshot, then WAL. */
  predicate Fresher(a: Rank, b: Rank)
  {
    Above(KeyOf(a), KeyOf(b))
  }

  datatype Key = Key(leaderTerm: nat, snapTerm: nat, snapIndex: nat, walIndex: nat, walWrite: nat)

  function KeyOf(r: Rank): Key
  {
    Key(r.leaderTerm, r.raft.snapTerm, r.raft.snapIndex, r.raft.walIndex, r.raft.walWrite)
  }

  predicate Above(a: Key, b: Key)
  {
    if a.leaderTerm != b.leaderTerm then a.leaderTerm > b.leaderTerm
    else if a.snapTerm != b.snapTerm then a.snapTerm > b.snapTerm
    else if a.snapIndex != b.snapIndex then a.snapIndex > b.snapIndex
    else if a.walIndex != b.walIndex then a.walIndex > b.walIndex
    else a.walWrite > b.walWrite
  }

  /** What decides how fresh a node is, the weightiest first. */
  ghost function Freshness(r: Rank): seq<nat>
  {
    [r.leaderTerm, r.raft.snapTerm, r.raft.snapIndex, r.raft.walIndex, r.raft.walWrite]
  }

  /** a is greater than b where they first differ. */
  ghost predicate Exceeds(a: seq<nat>, b: seq<nat>)
  {
    exists k :: 0 <= k < |a| && k < |b| && a[..k] == b[..k] && a[k] > b[k]
  }

  lemma FresherIff(a: Rank, b: Rank)
    ensures Fresher(a, b) <==> Exceeds(Freshness(a), Freshness(b))
  {
    var x, y := Freshness(a), Freshness(b);
    if Fresher(a, b) {
      var k :=
        if x[0] != y[0] then 0
        else if x[1] != y[1] then 1
        else if x[2] != y[2] then 2
        else if x[3] != y[3] then 3
        else 4;
      assert x[..k] == y[..k] && x[k] > y[k];
    }
    if k :| 0 <= k < |x| && k < |y| && x[..k] == y[..k] && x[k] > y[k] {
      assert k > 0 ==> x[0] == x[..k][0] == y[..k][0] == y[0];
      assert k > 1 ==> x[1] == x[..k][1] == y[..k][1] == y[1];
      assert k > 2 ==> x[2] == x[..k][2] == y[..k][2] == y[2];
      assert k > 3 ==> x[3] == x[..k][3] == y[..k][3] == y[3];
    }
  }

  /** No entry is fresher than one ranked before it. */
  ghost predicate FreshestFirst(out: seq<Rank>)
  {
    forall i, j :: 0 <= i < j < |out| ==> !Exceeds(Freshness(out[j]), Freshness(out[i]))
  }

  lemma OrderedIsFreshestFirst(out: seq<Rank>)
    ensures Ordered(out, Fresher) <==> FreshestFirst(out)
  {
    forall a: Rank, b: Rank
      ensures Fresher(a, b) <==> Exceeds(Freshness(a), Freshness(b))
    {
      FresherIff(a, b);
    }
    hide Fresher, Freshness, Exceeds;
  }

  ghost predicate DistinctNodes(recs: seq<Triage>)
  {
    forall i, j :: 0 <= i < j < |recs| ==> recs[i].node != recs[j].node
  }

  lemma {:induction false} NodesOfIDs(recs: seq<Triage>)
    ensures forall id :: id in NodeOfID(recs) ==> exists t :: t in recs && t.node == NodeOfID(recs)[id]
  {
    IDsAreClaimed(recs);
  }

  /** byNode holds every node's entry with the evidence of events so far. */
  ghost predicate Tallied(byNode: map<string, Rank>, recs: seq<Triage>, events: seq<LeaderEvent>,
      ids: map<string, string>)
  {
    forall i :: 0 <= i < |recs| ==> recs[i].node in byNode && byNode[recs[i].node] == Ranked(recs[i], events, ids)
  }

  lemma TallyGrows(byNode: map<string, Rank>, recs: seq<Triage>, events: seq<LeaderEvent>, ids: map<string, string>,
      ev: LeaderEvent)
    requires DistinctNodes(recs) && Tallied(byNode, recs, events, ids)
    requires ev.leader in ids ==> exists i :: 0 <= i < |recs| && recs[i].node == ids[ev.leader]
    ensures ev.leader !in ids ==> Tallied(byNode, recs, events + [ev], ids)
    ensures ev.leader in ids ==>
      var n := ids[ev.leader];
      n in byNode &&
      Tallied(if Later(ev.term, ev.time, byNode[n].leaderTerm, byNode[n].leaderAt)
        then byNode[n := byNode[n].(leaderTerm := ev.term, leaderAt := ev.time)] else byNode,
        recs, events + [ev], ids)
  {
    assert (events + [ev])[..|events|] == events;
  }

  method IndexIDs(recs: seq<Triage>) returns (ids: map<string, string>)
    ensures ids == NodeOfID(recs)
  {
    ids := map[];
    for i := 0 to |recs|
      invariant ids == NodeOfID(recs[..i])
    {
      assert recs[..i + 1][..i] == recs[..i];
      var t := recs[i];
      if t.localID != "" { ids := ids[t.localID := t.node]; }
      if t.member.Some? { ids := ids[t.member.value := t.node]; }
    }
    assert recs[..|recs|] == recs;
  }

  method FirstEntries(recs: seq<Triage>, ghost ids: map<string, string>)
    returns (byNode: map<string, Rank>, order: seq<string>)
    requires DistinctNodes(recs)
    ensures |order| == |recs| && forall k :: 0 <= k < |recs| ==> order[k] == recs[k].node
    ensures Tallied(byNode, recs, [], ids)
  {
    byNode, order := map[], [];
    for i := 0 to |recs|
      invariant |order| == i && forall k :: 0 <= k < i ==> order[k] == recs[k].node
      invariant forall k :: 0 <= k < i ==> recs[k].node in byNode && byNode[recs[k].node] == FirstEntry(recs[k])
    {
      var t := recs[i];
      var r := Rank(t.node, t.localID, 0, 0, t.raft, "", 0);
      var last := ComputeLastLeader(t.events);
      if last.Some? { r := r.(lastElected := last.value.leader, lastTerm := last.value.term); }
      if r.memberID == "" && t.member.Some? { r := r.(memberID := t.member.value); }
      byNode := byNode[t.node := r];
      order := order + [t.node];
    }
  }

  /** One log's events, each updating the entry of the node it names. */
  method TallyLog(recs: seq<Triage>, ids: map<string, string>, ghost seen: seq<LeaderEvent>,
      events: seq<LeaderEvent>, before: map<string, Rank>)
    returns (byNode: map<string, Rank>)
    requires DistinctNodes(recs) && Tallied(before, recs, seen, ids)
    requires forall id :: id in ids ==> exists i :: 0 <= i < |recs| && recs[i].node == ids[id]
    ensures Tallied(byNode, recs, seen + events, ids)
  {
    hide Tallied;
    byNode := before;
    assert seen + events[..0] == seen;
    for j := 0 to |events|
      invariant Tallied(byNode, recs, seen + events[..j], ids)
    {
      var ev := events[j];
      TallyGrows(byNode, recs, seen + events[..j], ids, ev);
      assert seen + events[..j + 1] == seen + events[..j] + [ev];
      if ev.leader in ids {
        var n := ids[ev.leader];
        var r := byNode[n];
        if Later(ev.term, ev.time, r.leaderTerm, r.leaderAt) {
          byNode := byNode[n := r.(leaderTerm := ev.term, leaderAt := ev.time)];
        }
      }
    }
    assert events[..|events|] == events;
  }

  /** One map entry per node, updated log by log, then sorted. */
  method RankEtcdNodes(recs: seq<Triage>) returns (out: seq<Rank>)
    requires DistinctNodes(recs)
    ensures out == StableSort(Evidence(recs), Fresher)
    ensures multiset(out) == multiset(Evidence(recs)) && FreshestFirst(out)
    ensures exists at :: StableFrom(out, Evidence(recs), Fresher, at)
  {
    hide Later, Names;
    var ids := IndexIDs(recs);
    NodesOfIDs(recs);
    var byNode, order := FirstEntries(recs, ids);
    for i := 0 to |recs|
      invariant Tallied(byNode, recs, AllEvents(recs[..i]), ids)
    {
      assert recs[..i + 1][..i] == recs[..i];
      byNode := TallyLog(recs, ids, AllEvents(recs[..i]), recs[i].events, byNode);
    }
    assert recs[..|recs|] == recs;
    out := Collect(recs, ids, byNode, order);
    out := SortRanks(out);
  }

  method Collect(recs: seq<Triage>, ghost ids: map<string, string>, byNode: map<string, Rank>, order: seq<string>)
    returns (out: seq<Rank>)
    requires |order| == |recs| && forall k :: 0 <= k < |recs| ==> order[k] == recs[k].node
    requires ids == NodeOfID(recs) && Tallied(byNode, recs, AllEvents(recs), ids)
    ensures out == Evidence(recs)
  {
    hide Ranked, NodeOfID, AllEvents;
    out := [];
    for i := 0 to |order|
      invariant |out| == i && forall k :: 0 <= k < i ==> out[k] == Evidence(recs)[k]
    {
      out := out + [byNode[order[i]]];
    }
  }

  method SortRanks(rs: seq<Rank>) returns (out: seq<Rank>)
    ensures out == StableSort(rs, Fresher)
    ensures multiset(out) == multiset(rs) && FreshestFirst(out)
    ensures exists at :: StableFrom(out, rs, Fresher, at)
  {
    out := StableSort(rs, Fresher);
    SortKeeps(rs, Fresher);
    SortOrders(rs, Fresher);
    OrderedIsFreshestFirst(out);
    ghost var at := SortIsStable(rs, Fresher);
  }

  // ----- the order of records, logs and events does not matter

  function Bare(t: Triage): Triage { t.(events := []) }

  function BareAll(recs: seq<Triage>): (r: seq<Triage>)
    ensures |r| == |recs|
  {
    seq(|recs|, i requires 0 <= i < |recs| => Bare(recs[i]))
  }

  /** The two sets of records say the same, in whatever order and whichever
      log an election was read from. */
  ghost predicate SameEvidence(recs: seq<Triage>, recs': seq<Triage>)
  {
    && multiset(BareAll(recs)) == multiset(BareAll(recs'))
    && forall ev :: ev in AllEvents(recs) <==> ev in AllEvents(recs')
  }

  function Keys(rs: seq<Rank>): (ks: seq<Key>)
    ensures |ks| == |rs|
  {
    seq(|rs|, i requires 0 <= i < |rs| => KeyOf(rs[i]))
  }

  lemma SameClaims(recs: seq<Triage>, recs': seq<Triage>, t: Triage)
    requires multiset(BareAll(recs)) == multiset(BareAll(recs')) && t in recs
    ensures exists u :: u in recs' && Bare(u) == Bare(t)
  {
    var i :| 0 <= i < |recs| && recs[i] == t;
    assert BareAll(recs)[i] == Bare(t);
    InMultiset(BareAll(recs), Bare(t));
    InMultiset(BareAll(recs'), Bare(t));
    var j :| 0 <= j < |recs'| && BareAll(recs')[j] == Bare(t);
    assert recs'[j] in recs';
  }

  lemma IDsCarryOver(recs: seq<Triage>, recs': seq<Triage>, id: string)
    requires Consistent(recs) && multiset(BareAll(recs)) == multiset(BareAll(recs'))
    requires id in NodeOfID(recs)
    ensures id in NodeOfID(recs') && NodeOfID(recs')[id] == NodeOfID(recs)[id]
  {
    IDsAreClaimed(recs);
    IDsAreClaimed(recs');
    var t :| t in recs && Claims(t, id) && t.node == NodeOfID(recs)[id];
    SameClaims(recs, recs', t);
    var u :| u in recs' && Bare(u) == Bare(t);
    assert Claims(u, id);
    var u' :| u' in recs' && Claims(u', id) && u'.node == NodeOfID(recs')[id];
    SameClaims(recs', recs, u');
    var t' :| t' in recs && Bare(t') == Bare(u');
    assert Claims(t', id);
  }

  lemma StillConsistent(recs: seq<Triage>, recs': seq<Triage>)
    requires Consistent(recs) && multiset(BareAll(recs)) == multiset(BareAll(recs'))
    ensures Consistent(recs')
  {
    forall t, u, id | t in recs' && u in recs' && Claims(t, id) && Claims(u, id)
      ensures t.node == u.node
    {
      SameClaims(recs', recs, t);
      SameClaims(recs', recs, u);
      var t' :| t' in recs && Bare(t') == Bare(t);
      var u' :| u' in recs && Bare(u') == Bare(u);
      assert Claims(t', id) && Claims(u', id);
    }
  }

  lemma SameIDs(recs: seq<Triage>, recs': seq<Triage>)
    requires Consistent(recs) && multiset(BareAll(recs)) == multiset(BareAll(recs'))
    ensures NodeOfID(recs) == NodeOfID(recs')
  {
    StillConsistent(recs, recs');
    forall id | id in NodeOfID(recs)
      ensures id in NodeOfID(recs') && NodeOfID(recs')[id] == NodeOfID(recs)[id]
    {
      IDsCarryOver(recs, recs', id);
    }
    forall id | id in NodeOfID(recs')
      ensures id in NodeOfID(recs)
    {
      IDsCarryOver(recs', recs, id);
    }
  }

  // when the owner of an id depends on the order of the records

  lemma {:induction false} LastClaimWins(a: seq<Triage>, b: seq<Triage>, id: string)
    ensures id in NodeOfID(b) ==> id in NodeOfID(a + b) && NodeOfID(a + b)[id] == NodeOfID(b)[id]
    ensures id !in NodeOfID(b) ==> (id in NodeOfID(a + b) <==> id in NodeOfID(a))
    ensures id !in NodeOfID(b) && id in NodeOfID(a) ==> NodeOfID(a + b)[id] == NodeOfID(a)[id]
  {
    if b == [] {
      assert a + b == a;
    } else {
      assert (a + b)[..|a + b| - 1] == a + b[..|b| - 1];
      LastClaimWins(a, b[..|b| - 1], id);
    }
  }

  lemma OneRecord(t: Triage, id: string)
    ensures id in NodeOfID([t]) <==> Claims(t, id)
    ensures Claims(t, id) ==> NodeOfID([t])[id] == t.node
  {
    assert [t][..0] == [];
    assert NodeOfID([]) == map[];
  }

  /** recs with its i-th record moved to the front, or to the back. */
  function ToFront(recs: seq<Triage>, i: nat): seq<Triage>
    requires i < |recs|
  {
    [recs[i]] + Without(recs, i)
  }

  function ToBack(recs: seq<Triage>, i: nat): seq<Triage>
    requires i < |recs|
  {
    Without(recs, i) + [recs[i]]
  }

  lemma Moved(recs: seq<Triage>, i: nat)
    requires i < |recs|
    ensures multiset(ToFront(recs, i)) == multiset(recs) == multiset(ToBack(recs, i))
  {
    hide Without;
    WithoutOne(recs, i);
  }

  lemma BackOwns(recs: seq<Triage>, i: nat, id: string)
    requires i < |recs| && Claims(recs[i], id)
    ensures id in NodeOfID(ToBack(recs, i)) && NodeOfID(ToBack(recs, i))[id] == recs[i].node
  {
    hide NodeOfID, Claims;
    OneRecord(recs[i], id);
    LastClaimWins(Without(recs, i), [recs[i]], id);
  }

  ghost predicate OwnersIgnoreOrder(recs: seq<Triage>)
  {
    forall recs' :: multiset(recs') == multiset(recs) ==> NodeOfID(recs') == NodeOfID(recs)
  }

  lemma OneOwner(recs: seq<Triage>, t: Triage, u: Triage, id: string)
    requires OwnersIgnoreOrder(recs) && t in recs && u in recs && Claims(t, id) && Claims(u, id)
    ensures t.node == u.node
  {
    hide NodeOfID, Claims;
    var i :| 0 <= i < |recs| && recs[i] == t;
    var j :| 0 <= j < |recs| && recs[j] == u;
    Moved(recs, i);
    Moved(recs, j);
    BackOwns(recs, i, id);
    BackOwns(recs, j, id);
  }

  /** Whose id is whose does not depend on the order of the records exactly
      when no id is claimed for two nodes. */
  lemma OwnersIgnoreOrderIff(recs: seq<Triage>)
    ensures OwnersIgnoreOrder(recs) <==> Consistent(recs)
  {
    hide NodeOfID, Claims;
    if OwnersIgnoreOrder(recs) {
      forall t, u, id | t in recs && u in recs && Claims(t, id) && Claims(u, id)
        ensures t.node == u.node
      {
        OneOwner(recs, t, u, id);
      }
    }
    if Consistent(recs) {
      forall recs' | multiset(recs') == multiset(recs)
        ensures NodeOfID(recs') == NodeOfID(recs)
      {
        BarePermutation(recs, recs');
        SameIDs(recs, recs');
      }
    }
  }

  lemma BarePermutation(recs: seq<Triage>, recs': seq<Triage>)
    requires multiset(recs') == multiset(recs)
    ensures multiset(BareAll(recs)) == multiset(BareAll(recs'))
  {
    MapKeepsMultiset(recs, recs', Bare);
    assert BareAll(recs) == MapSeq(recs, Bare) && BareAll(recs') == MapSeq(recs', Bare);
  }

  // when a leader term depends on it

  /** Some record claims id for the node. */
  ghost predicate ClaimedFor(recs: seq<Triage>, id: string, node: string)
  {
    exists t :: t in recs && Claims(t, id) && t.node == node
  }

  /** Records claim id for the node and for no other. */
  ghost predicate Sole(recs: seq<Triage>, id: string, node: string)
  {
    ClaimedFor(recs, id, node) && forall t :: t in recs && Claims(t, id) ==> t.node == node
  }

  /** Some election of an id that is the node's alone is at term or later. */
  ghost predicate Settled(recs: seq<Triage>, node: string, term: nat)
  {
    term == 0 || exists ev :: ev in AllEvents(recs) && Sole(recs, ev.leader, node) && ev.term >= term
  }

  /** No election of an id claimed for several nodes decides a leader term. */
  ghost predicate Decided(recs: seq<Triage>)
  {
    forall ev, node :: ev in AllEvents(recs) && ClaimedFor(recs, ev.leader, node) ==> Settled(recs, node, ev.term)
  }

  function LeaderTerm(recs: seq<Triage>, node: string): nat
  {
    Latest(AllEvents(recs), NodeOfID(recs), node).0
  }

  /** term is the last at which an id that is the node's alone was elected. */
  ghost predicate LastSoleTerm(recs: seq<Triage>, node: string, term: nat)
  {
    && Settled(recs, node, term)
    && forall ev :: ev in AllEvents(recs) && Sole(recs, ev.leader, node) ==> ev.term <= term
  }

  lemma SoleIsNamed(recs: seq<Triage>, ev: LeaderEvent, node: string)
    requires Sole(recs, ev.leader, node)
    ensures Names(ev, NodeOfID(recs), node)
  {
    hide NodeOfID, Claims;
    IDsAreClaimed(recs);
  }

  lemma NamedIsClaimed(recs: seq<Triage>, ev: LeaderEvent, node: string)
    requires Names(ev, NodeOfID(recs), node)
    ensures ClaimedFor(recs, ev.leader, node)
  {
    hide NodeOfID, Claims;
    IDsAreClaimed(recs);
  }

  lemma LedAtSoleTerm(recs: seq<Triage>, node: string)
    requires Decided(recs)
    ensures LastSoleTerm(recs, node, LeaderTerm(recs, node))
  {
    hide NodeOfID, AllEvents, Sole, ClaimedFor, Settled, Names, Latest;
    var events, ids := AllEvents(recs), NodeOfID(recs);
    LatestIsLatest(events, ids, node);
    var best := Latest(events, ids, node);
    forall ev | ev in events && Sole(recs, ev.leader, node)
      ensures ev.term <= best.0
    {
      SoleIsNamed(recs, ev, node);
    }
    if best == (0, 0) {
      NothingToSettle(recs, node);
    } else {
      var ev :| ev in events && Names(ev, ids, node) && best == (ev.term, ev.time);
      NamedIsClaimed(recs, ev, node);
    }
  }

  lemma NothingToSettle(recs: seq<Triage>, node: string)
    ensures Settled(recs, node, 0)
  {}

  lemma SameSole(recs: seq<Triage>, recs': seq<Triage>, id: string, node: string)
    requires multiset(BareAll(recs)) == multiset(BareAll(recs'))
    ensures ClaimedFor(recs, id, node) ==> ClaimedFor(recs', id, node)
    ensures Sole(recs, id, node) ==> Sole(recs', id, node)
  {
    if t :| t in recs && Claims(t, id) && t.node == node {
      SameClaims(recs, recs', t);
      var u :| u in recs' && Bare(u) == Bare(t);
      assert Claims(u, id) && u.node == node;
    }
    if Sole(recs, id, node) {
      forall u | u in recs' && Claims(u, id)
        ensures u.node == node
      {
        SameClaims(recs', recs, u);
        var t :| t in recs && Bare(t) == Bare(u);
        assert Claims(t, id);
      }
    }
  }

  lemma SameSettled(recs: seq<Triage>, recs': seq<Triage>, node: string, term: nat)
    requires SameEvidence(recs, recs') && Settled(recs, node, term)
    ensures Settled(recs', node, term)
  {
    hide AllEvents, Sole;
    if term > 0 {
      var ev :| ev in AllEvents(recs) && Sole(recs, ev.leader, node) && ev.term >= term;
      SameSole(recs, recs', ev.leader, node);
    }
  }

  lemma StillDecided(recs: seq<Triage>, recs': seq<Triage>)
    requires SameEvidence(recs, recs') && Decided(recs)
    ensures Decided(recs')
  {
    hide AllEvents, Sole, ClaimedFor, Settled;
    forall ev, node | ev in AllEvents(recs') && ClaimedFor(recs', ev.leader, node)
      ensures Settled(recs', node, ev.term)
    {
      SameSole(recs', recs, ev.leader, node);
      SameSettled(recs, recs', node, ev.term);
    }
  }

  lemma SoleTermAtMost(recs: seq<Triage>, recs': seq<Triage>, node: string, term: nat, term': nat)
    requires SameEvidence(recs, recs')
    requires LastSoleTerm(recs, node, term) && LastSoleTerm(recs', node, term')
    ensures term <= term'
  {
    hide AllEvents, Sole;
    if term > 0 {
      var ev :| ev in AllEvents(recs) && Sole(recs, ev.leader, node) && ev.term >= term;
      SameSole(recs, recs', ev.leader, node);
    }
  }

  lemma SameLeaderTerm(recs: seq<Triage>, recs': seq<Triage>, node: string)
    requires Decided(recs) && SameEvidence(recs, recs')
    ensures LeaderTerm(recs, node) == LeaderTerm(recs', node)
  {
    hide LastSoleTerm, LeaderTerm, Decided;
    StillDecided(recs, recs');
    LedAtSoleTerm(recs, node);
    LedAtSoleTerm(recs', node);
    SoleTermAtMost(recs, recs', node, LeaderTerm(recs, node), LeaderTerm(recs', node));
    SoleTermAtMost(recs', recs, node, LeaderTerm(recs', node), LeaderTerm(recs, node));
  }

  lemma {:induction false} EventsOfRecords(recs: seq<Triage>, ev: LeaderEvent)
    ensures ev in AllEvents(recs) <==> exists t :: t in recs && ev in t.events
  {
    if recs != [] {
      var init, last := recs[..|recs| - 1], recs[|recs| - 1];
      EventsOfRecords(init, ev);
      assert recs == init + [last];
      assert forall t :: t in recs <==> t in init || t == last;
    }
  }

  lemma PermutationSameEvidence(recs: seq<Triage>, recs': seq<Triage>)
    requires multiset(recs) == multiset(recs')
    ensures SameEvidence(recs, recs')
  {
    BarePermutation(recs, recs');
    forall ev
      ensures ev in AllEvents(recs) <==> ev in AllEvents(recs')
    {
      EventsOfRecords(recs, ev);
      EventsOfRecords(recs', ev);
      forall t
        ensures t in recs <==> t in recs'
      {
        InMultiset(recs, t);
        InMultiset(recs', t);
      }
    }
  }

  /** A node whose record comes first owns only the ids that are its alone. */
  lemma FrontOwnsSole(recs: seq<Triage>, i: nat, id: string)
    requires DistinctNodes(recs) && i < |recs|
    requires id in NodeOfID(ToFront(recs, i)) && NodeOfID(ToFront(recs, i))[id] == recs[i].node
    ensures Sole(recs, id, recs[i].node)
  {
    hide NodeOfID, Claims;
    var t, others := recs[i], Without(recs, i);
    assert forall u :: u in recs <==> u == t || u in others;
    assert forall u :: u in others ==> u.node != t.node;
    IDsAreClaimed(others);
    LastClaimWins([t], others, id);
    OneRecord(t, id);
    forall u | u in recs && Claims(u, id)
      ensures u.node == t.node
    {
      if u in others { assert false; }
    }
  }

  lemma TermsDifferUndecided(recs: seq<Triage>, i: nat, ev: LeaderEvent)
    requires DistinctNodes(recs) && i < |recs| && ev in AllEvents(recs) && Claims(recs[i], ev.leader)
    requires LeaderTerm(ToFront(recs, i), recs[i].node) == LeaderTerm(ToBack(recs, i), recs[i].node)
    ensures Settled(recs, recs[i].node, ev.term)
  {
    hide NodeOfID, AllEvents, Claims, ToFront, ToBack, Sole;
    var node, front, back := recs[i].node, ToFront(recs, i), ToBack(recs, i);
    Moved(recs, i);
    PermutationSameEvidence(recs, front);
    PermutationSameEvidence(recs, back);
    BackOwns(recs, i, ev.leader);
    LatestIsLatest(AllEvents(back), NodeOfID(back), node);
    assert Names(ev, NodeOfID(back), node);
    LatestIsLatest(AllEvents(front), NodeOfID(front), node);
    var best := Latest(AllEvents(front), NodeOfID(front), node);
    if best != (0, 0) {
      var ev' :| ev' in AllEvents(front) && Names(ev', NodeOfID(front), node) && best == (ev'.term, ev'.time);
      FrontOwnsSole(recs, i, ev'.leader);
    }
  }

  ghost predicate TermsIgnoreOrder(recs: seq<Triage>)
  {
    forall recs', node :: multiset(recs') == multiset(recs) ==> LeaderTerm(recs', node) == LeaderTerm(recs, node)
  }

  /** The leader terms do not depend on the order of the records exactly when
      every election of an id claimed for several nodes is matched, for each
      of them, by one as late of an id that is its alone. */
  lemma TermsIgnoreOrderIff(recs: seq<Triage>)
    requires DistinctNodes(recs)
    ensures TermsIgnoreOrder(recs) <==> Decided(recs)
  {
    hide AllEvents, Claims, Settled, LeaderTerm, Decided, SameEvidence, ToFront, ToBack;
    if TermsIgnoreOrder(recs) {
      forall ev, node | ev in AllEvents(recs) && ClaimedFor(recs, ev.leader, node)
        ensures Settled(recs, node, ev.term)
      {
        var t :| t in recs && Claims(t, ev.leader) && t.node == node;
        var i :| 0 <= i < |recs| && recs[i] == t;
        Moved(recs, i);
        TermsDifferUndecided(recs, i, ev);
      }
      SettledIsDecided(recs);
    }
    if Decided(recs) {
      forall recs', node | multiset(recs') == multiset(recs)
        ensures LeaderTerm(recs', node) == LeaderTerm(recs, node)
      {
        PermutationSameEvidence(recs, recs');
        SameLeaderTerm(recs, recs', node);
      }
    }
  }

  lemma SettledIsDecided(recs: seq<Triage>)
    requires forall ev, node :: ev in AllEvents(recs) && ClaimedFor(recs, ev.leader, node) ==>
      Settled(recs, node, ev.term)
    ensures Decided(recs)
  {}

  /** Consistent claims leave nothing to decide. */
  lemma ConsistentIsDecided(recs: seq<Triage>)
    requires Consistent(recs)
    ensures Decided(recs)
  {
    hide AllEvents, Claims;
    forall ev, node | ev in AllEvents(recs) && ClaimedFor(recs, ev.leader, node)
      ensures Settled(recs, node, ev.term)
    {
      assert Sole(recs, ev.leader, node);
    }
  }

  /** A node's key from its record, events or not, and the leader terms. */
  function KeyIn(recs: seq<Triage>, t: Triage): Key
  {
    Key(LeaderTerm(recs, t.node), t.raft.snapTerm, t.raft.snapIndex, t.raft.walIndex, t.raft.walWrite)
  }

  ghost predicate Descending(ks: seq<Key>)
  {
    forall i, j :: 0 <= i < j < |ks| ==> !Above(ks[j], ks[i])
  }

  lemma SameFirst(a: seq<Key>, b: seq<Key>)
    requires Descending(a) && Descending(b) && multiset(a) == multiset(b) && a != [] && b != []
    ensures a[0] == b[0]
  {
    InMultiset(a, b[0]);
    InMultiset(b, b[0]);
    InMultiset(a, a[0]);
    InMultiset(b, a[0]);
    var i :| 0 <= i < |a| && a[i] == b[0];
    var j :| 0 <= j < |b| && b[j] == a[0];
    assert !Above(a[i], a[0]) && !Above(b[j], b[0]);
  }

  lemma FirstApart(ks: seq<Key>)
    requires ks != []
    ensures ks == [ks[0]] + Without(ks, 0)
    ensures Descending(ks) ==> Descending(Without(ks, 0))
  {
    hide Above;
    assert Without(ks, 0) == ks[1..];
  }

  lemma {:induction false} DescendingIsUnique(a: seq<Key>, b: seq<Key>)
    requires Descending(a) && Descending(b) && multiset(a) == multiset(b)
    ensures a == b
    decreases |a|
  {
    hide Descending, Without;
    SameLength(a, b);
    if a != [] {
      SameFirst(a, b);
      FirstApart(a);
      FirstApart(b);
      WithoutOne(a, 0);
      WithoutOne(b, 0);
      DescendingIsUnique(Without(a, 0), Without(b, 0));
    }
  }

  lemma KeysAreBare(recs: seq<Triage>, same: seq<Triage>)
    requires forall node :: LeaderTerm(recs, node) == LeaderTerm(same, node)
    ensures Keys(Evidence(recs)) == MapSeq(BareAll(recs), (t: Triage) => KeyIn(same, t))
  {
    hide AllEvents, NodeOfID, Latest;
  }

  lemma SameKeys(recs: seq<Triage>, recs': seq<Triage>)
    requires Decided(recs) && SameEvidence(recs, recs')
    ensures multiset(Keys(Evidence(recs))) == multiset(Keys(Evidence(recs')))
  {
    hide LeaderTerm, Decided, Keys, Evidence;
    forall node
      ensures LeaderTerm(recs, node) == LeaderTerm(recs', node)
    {
      SameLeaderTerm(recs, recs', node);
    }
    KeysAreBare(recs, recs);
    KeysAreBare(recs', recs);
    MapKeepsMultiset(BareAll(recs), BareAll(recs'), (t: Triage) => KeyIn(recs, t));
  }

  /** The ranked keys are the same, position by position. */
  lemma SameRankedKeys(recs: seq<Triage>, recs': seq<Triage>, out: seq<Rank>, out': seq<Rank>)
    requires Decided(recs) && SameEvidence(recs, recs')
    requires multiset(out) == multiset(Evidence(recs)) && Ordered(out, Fresher)
    requires multiset(out') == multiset(Evidence(recs')) && Ordered(out', Fresher)
    ensures Keys(out) == Keys(out')
  {
    SameKeys(recs, recs');
    MapKeepsMultiset(out, Evidence(recs), KeyOf);
    MapKeepsMultiset(out', Evidence(recs'), KeyOf);
    assert Keys(out) == MapSeq(out, KeyOf) && Keys(out') == MapSeq(out', KeyOf);
    assert Keys(Evidence(recs)) == MapSeq(Evidence(recs), KeyOf);
    assert Keys(Evidence(recs')) == MapSeq(Evidence(recs'), KeyOf);
    DescendingIsUnique(Keys(out), Keys(out'));
  }

  lemma EvidenceOf(recs: seq<Triage>, i: nat)
    requires i < |recs|
    ensures Evidence(recs)[i] in Evidence(recs)
    ensures Evidence(recs)[i].node == recs[i].node && KeyOf(Evidence(recs)[i]) == KeyIn(recs, recs[i])
  {
    hide LastLeader, Latest, NodeOfID, AllEvents;
  }

  lemma EvidenceFrom(recs: seq<Triage>, r: Rank) returns (t: Triage)
    requires r in Evidence(recs)
    ensures t in recs && r.node == t.node && KeyOf(r) == KeyIn(recs, t)
  {
    hide Evidence, KeyIn, KeyOf;
    var i :| 0 <= i < |Evidence(recs)| && Evidence(recs)[i] == r;
    t := recs[i];
    EvidenceOf(recs, i);
  }

  /** Records that say the same give a node the same key. */
  lemma NodeKeepsKey(recs: seq<Triage>, recs': seq<Triage>, r: Rank, r': Rank)
    requires DistinctNodes(recs) && Decided(recs) && SameEvidence(recs, recs')
    requires r in Evidence(recs) && r' in Evidence(recs') && r.node == r'.node
    ensures KeyOf(r) == KeyOf(r')
  {
    hide Evidence, KeyOf, Decided, LeaderTerm;
    var t := EvidenceFrom(recs, r);
    var u' := EvidenceFrom(recs', r');
    SameClaims(recs', recs, u');
    var u :| u in recs && Bare(u) == Bare(u');
    assert u == t;
    SameLeaderTerm(recs, recs', t.node);
  }

  /** The two rankings are of the same nodes, each with its own key. */
  lemma NodeIsRankedAlike(recs: seq<Triage>, recs': seq<Triage>, out: seq<Rank>, out': seq<Rank>, i: nat)
    returns (m: nat)
    requires DistinctNodes(recs) && Decided(recs) && SameEvidence(recs, recs')
    requires multiset(out) == multiset(Evidence(recs)) && multiset(out') == multiset(Evidence(recs'))
    requires i < |out|
    ensures m < |out'| && out'[m].node == out[i].node && KeyOf(out'[m]) == KeyOf(out[i])
  {
    hide Evidence, KeyOf, Decided, SameEvidence, DistinctNodes;
    InMultiset(out, out[i]);
    InMultiset(Evidence(recs), out[i]);
    var t := EvidenceFrom(recs, out[i]);
    NodeCarriesOver(recs, recs', t);
    var j :| 0 <= j < |recs'| && recs'[j].node == t.node;
    EvidenceOf(recs', j);
    var r' := Evidence(recs')[j];
    NodeKeepsKey(recs, recs', out[i], r');
    InMultiset(out', r');
    InMultiset(Evidence(recs'), r');
    m :| 0 <= m < |out'| && out'[m] == r';
  }

  lemma NodeCarriesOver(recs: seq<Triage>, recs': seq<Triage>, t: Triage)
    requires SameEvidence(recs, recs') && t in recs
    ensures exists j :: 0 <= j < |recs'| && recs'[j].node == t.node
  {
    SameClaims(recs, recs', t);
    var u :| u in recs' && Bare(u) == Bare(t);
    var j :| 0 <= j < |recs'| && recs'[j] == u;
  }

  /** No other entry has the key of the i-th. */
  ghost predicate Untied(out: seq<Rank>, i: nat)
    requires i < |out|
  {
    forall j :: 0 <= j < |out| && j != i ==> KeyOf(out[j]) != KeyOf(out[i])
  }

  /** Records that say the same are ranked the same: the keys are equal position
      by position, every node keeps its key, and where no two nodes tie the
      same node stands in the same place. */
  lemma RankingIgnoresOrder(recs: seq<Triage>, recs': seq<Triage>, out: seq<Rank>, out': seq<Rank>)
    requires DistinctNodes(recs) && Decided(recs) && SameEvidence(recs, recs')
    requires multiset(out) == multiset(Evidence(recs)) && FreshestFirst(out)
    requires multiset(out') == multiset(Evidence(recs')) && FreshestFirst(out')
    ensures Keys(out) == Keys(out')
    ensures forall r, r' :: r in out && r' in out' && r.node == r'.node ==> KeyOf(r) == KeyOf(r')
    ensures forall i :: 0 <= i < |out| && Untied(out, i) ==> out'[i].node == out[i].node
  {
    hide Evidence, Decided, SameEvidence, DistinctNodes, Ordered, KeyOf, FreshestFirst;
    OrderedIsFreshestFirst(out);
    OrderedIsFreshestFirst(out');
    SameRankedKeys(recs, recs', out, out');
    forall r, r' | r in out && r' in out' && r.node == r'.node
      ensures KeyOf(r) == KeyOf(r')
    {
      InMultiset(out, r);
      InMultiset(Evidence(recs), r);
      InMultiset(out', r');
      InMultiset(Evidence(recs'), r');
      NodeKeepsKey(recs, recs', r, r');
    }
    forall i | 0 <= i < |out| && Untied(out, i)
      ensures out'[i].node == out[i].node
    {
      var m := NodeIsRankedAlike(recs, recs', out, out', i);
      assert Keys(out)[m] == Keys(out')[m];
    }
  }

  /** Every node has the same key for every order of the records. */
  ghost predicate KeysIgnoreOrder(recs: seq<Triage>)
  {
    forall recs', r, r' :: multiset(recs') == multiset(recs) && r in Evidence(recs) && r' in Evidence(recs') ==>
      r.node == r'.node ==> KeyOf(r) == KeyOf(r')
  }

  lemma SameTermInOrder(recs: seq<Triage>, recs': seq<Triage>, i: nat)
    requires KeysIgnoreOrder(recs) && multiset(recs') == multiset(recs) && i < |recs|
    ensures LeaderTerm(recs', recs[i].node) == LeaderTerm(recs, recs[i].node)
  {
    hide Evidence, LeaderTerm;
    InMultiset(recs, recs[i]);
    InMultiset(recs', recs[i]);
    var j :| 0 <= j < |recs'| && recs'[j] == recs[i];
    EvidenceOf(recs, i);
    EvidenceOf(recs', j);
  }

  /** The nodes' keys do not depend on the order of the records exactly when no
      contested election decides a leader term. */
  lemma KeysIgnoreOrderIff(recs: seq<Triage>)
    requires DistinctNodes(recs)
    ensures KeysIgnoreOrder(recs) <==> Decided(recs)
  {
    hide AllEvents, Claims, Settled, LeaderTerm, Decided, SameEvidence, ToFront, ToBack, Evidence, KeysIgnoreOrder;
    if KeysIgnoreOrder(recs) {
      forall ev, node | ev in AllEvents(recs) && ClaimedFor(recs, ev.leader, node)
        ensures Settled(recs, node, ev.term)
      {
        var t :| t in recs && Claims(t, ev.leader) && t.node == node;
        var i :| 0 <= i < |recs| && recs[i] == t;
        Moved(recs, i);
        SameTermInOrder(recs, ToFront(recs, i), i);
        SameTermInOrder(recs, ToBack(recs, i), i);
        TermsDifferUndecided(recs, i, ev);
      }
      SettledIsDecided(recs);
    }
    if Decided(recs) { DecidedKeepsKeys(recs); }
  }

  lemma DecidedKeepsKeys(recs: seq<Triage>)
    requires DistinctNodes(recs) && Decided(recs)
    ensures KeysIgnoreOrder(recs)
  {
    hide Decided, SameEvidence, DistinctNodes, Evidence, KeyOf;
    forall recs' | multiset(recs') == multiset(recs)
      ensures forall r, r' :: r in Evidence(recs) && r' in Evidence(recs') ==>
        r.node == r'.node ==> KeyOf(r) == KeyOf(r')
    {
      PermutationSameEvidence(recs, recs');
      forall r, r' | r in Evidence(recs) && r' in Evidence(recs') && r.node == r'.node
        ensures KeyOf(r) == KeyOf(r')
      {
        NodeKeepsKey(recs, recs', r, r');
      }
    }
  }

  /** The evidence when both records claim the id one log saw elected. */
  lemma LastClaimLeads(t: Triage, u: Triage, ev: LeaderEvent)
    requires t.localID == u.localID == ev.leader != "" && t.member == u.member == None && t.node != u.node
    requires (t.events == [ev] && u.events == []) || (t.events == [] && u.events == [ev])
    ensures LeaderTerm([t, u], u.node) == ev.term && LeaderTerm([t, u], t.node) == 0
    ensures Evidence([t, u])[0].leaderTerm == 0 && Evidence([t, u])[1].leaderTerm == ev.term
  {
    assert [t, u][..1] == [t] && [t][..0] == [] && AllEvents([]) == [];
    assert AllEvents([t, u]) == [ev];
    assert [ev][..0] == [];
    LastClaimWins([t], [u], ev.leader);
    assert [t] + [u] == [t, u];
    OneRecord(u, ev.leader);
    var ids := NodeOfID([t, u]);
    assert Latest([], ids, u.node) == (0, 0) && Latest([], ids, t.node) == (0, 0);
  }

  /** When one does the order matters: of two nodes that claim the id elected
      at term 5, whichever was recorded last is ranked first. */
  lemma ConflictingClaimsDependOnOrder(out: seq<Rank>, out': seq<Rank>)
    requires var a := Triage("a", "id", None, Raft(1, 0, 0, 0), [LeaderEvent(1, 5, "id")]);
      var b := Triage("b", "id", None, NO_RAFT, []);
      && multiset(out) == multiset(Evidence([a, b])) && FreshestFirst(out)
      && multiset(out') == multiset(Evidence([b, a])) && FreshestFirst(out')
    ensures |out| == |out'| == 2 && out[0].node == "b" && out'[0].node == "a" && Keys(out) != Keys(out')
  {
    var ev := LeaderEvent(1, 5, "id");
    var a, b := Triage("a", "id", None, Raft(1, 0, 0, 0), [ev]), Triage("b", "id", None, NO_RAFT, []);
    LastClaimLeads(a, b, ev);
    LastClaimLeads(b, a, ev);
    LeaderFirst(Evidence([a, b]), out);
    LeaderFirst(Evidence([b, a]), out');
    assert Keys(out)[0] != Keys(out')[0];
  }

  lemma LeaderFirst(rs: seq<Rank>, out: seq<Rank>)
    requires |rs| == 2 && rs[0].leaderTerm < rs[1].leaderTerm
    requires multiset(out) == multiset(rs) && FreshestFirst(out)
    ensures |out| == 2 && out[0] == rs[1]
  {
    OrderedIsFreshestFirst(out);
    SameLength(out, rs);
    InMultiset(out, rs[0]);
    InMultiset(out, rs[1]);
    assert rs[0] in rs && rs[1] in rs;
    assert rs[0] in out && rs[1] in out;
  }

  /** What a node's entry shows: the member id it knows itself by or else was
      matched to, its own disk, the last election its own log saw, and the
      latest any log saw of an id that is the node's. */
  lemma EntryShows(recs: seq<Triage>, i: nat)
    requires i < |recs|
    ensures var t, r := recs[i], Evidence(recs)[i];
      && r.node == t.node && r.raft == t.raft
      && (t.localID != "" ==> r.memberID == t.localID)
      && (t.localID == "" && t.member.Some? ==> r.memberID == t.member.value)
      && (t.localID == "" && t.member.None? ==> r.memberID == "")
      && (t.events == [] ==> r.lastElected == "" && r.lastTerm == 0)
      && (t.events != [] ==> exists ev :: IsLast(t.events, ev) && r.lastElected == ev.leader && r.lastTerm == ev.term)
      && IsLatest(AllEvents(recs), NodeOfID(recs), t.node, (r.leaderTerm, r.leaderAt))
  {
    hide NodeOfID, AllEvents, Latest, LastLeader;
    LatestIsLatest(AllEvents(recs), NodeOfID(recs), recs[i].node);
    var events := recs[i].events;
    if events != [] {
      var k := LastLeaderIsLatest(events);
      assert IsLast(events, events[k]);
    } else {
      assert LastLeader(events) == None by { NobodyLed(); }
    }
  }

  ghost predicate IsLast(events: seq<LeaderEvent>, ev: LeaderEvent)
  {
    ev in events && forall e :: e in events ==> NoLater(e.term, e.time, ev.term, ev.time)
  }

  lemma NobodyLed()
    ensures LastLeader([]) == None
  {}

  /** The node ranked first holds the latest election any log reports for a
      node in the records, and of those led as late the latest snapshot. */
  lemma FirstLedLast(recs: seq<Triage>, out: seq<Rank>, ev: LeaderEvent)
    requires DistinctNodes(recs) && multiset(out) == multiset(Evidence(recs)) && FreshestFirst(out)
    requires ev in AllEvents(recs) && ev.leader in NodeOfID(recs)
    ensures out != [] && ev.term <= out[0].leaderTerm
    ensures forall r :: r in out && r.leaderTerm == out[0].leaderTerm ==>
      NoLater(r.raft.snapTerm, r.raft.snapIndex, out[0].raft.snapTerm, out[0].raft.snapIndex)
  {
    hide Evidence;
    NodesOfIDs(recs);
    var t :| t in recs && t.node == NodeOfID(recs)[ev.leader];
    var i :| 0 <= i < |recs| && recs[i] == t;
    var r := Evidence(recs)[i];
    assert r.leaderTerm >= ev.term by {
      LatestIsLatest(AllEvents(recs), NodeOfID(recs), t.node);
      EntryShows(recs, i);
    }
    InMultiset(Evidence(recs), r);
    InMultiset(out, r);
    FirstIsFreshest(out);
  }

  lemma FirstIsFreshest(out: seq<Rank>)
    requires FreshestFirst(out)
    ensures forall r :: r in out ==> r.leaderTerm <= out[0].leaderTerm
    ensures forall r :: r in out && r.leaderTerm == out[0].leaderTerm ==>
      NoLater(r.raft.snapTerm, r.raft.snapIndex, out[0].raft.snapTerm, out[0].raft.snapIndex)
  {
    OrderedIsFreshestFirst(out);
    forall r | r in out
      ensures !Fresher(r, out[0])
    {
      var k :| 0 <= k < |out| && out[k] == r;
      assert k == 0 || !Fresher(out[k], out[0]);
    }
  }
}
