/** Whether an etcd cluster has lost its quorum, and who leads it. */
module Quorum {
  import opened Common
  import opened Strings
  import opened SortedStrings
  import opened Grpc

  /** One etcd node: the member it was matched to, and its health if known. */
  datatype Record = Record(member: Option<Member>, known: bool, healthy: bool)

  datatype EtcdQuorum = EtcdQuorum(
    total: nat, healthy: nat, haveMembers: bool, leader: string, term: nat, leaderIndex: nat, lost: bool, down: nat)

  // ----- counting

  ghost predicate IsLearner(r: Record) { r.member.Some? && r.member.value.isLearner }

  ghost predicate Counted(r: Record) { !IsLearner(r) }

  ghost function HealthyRecords(recs: seq<Record>): set<nat>
  {
    set i | 0 <= i < |recs| && Counted(recs[i]) && recs[i].known && recs[i].healthy
  }

  ghost function DownRecords(recs: seq<Record>): set<nat>
  {
    set i | 0 <= i < |recs| && Counted(recs[i]) && recs[i].known && !recs[i].healthy
  }

  ghost function VotingMembers(members: seq<Member>): set<nat>
  {
    set i | 0 <= i < |members| && !members[i].isLearner
  }

  /** The voters: the non-learner members, or every node without a list. */
  ghost function Voters(recs: seq<Record>, members: seq<Member>): set<nat>
  {
    if members != [] then VotingMembers(members) else UpTo(|recs|)
  }

  ghost function Majority(total: nat): nat { total / 2 + 1 }

  ghost predicate Lost(recs: seq<Record>, members: seq<Member>)
  {
    var total, down := |Voters(recs, members)|, |DownRecords(recs)|;
    total > 0 && |HealthyRecords(recs)| < Majority(total) && total - down < Majority(total)
  }

  ghost function UpTo(n: nat): (s: set<nat>)
    ensures |s| == n && forall i: nat :: i in s <==> i < n
  {
    if n == 0 then {} else UpTo(n - 1) + {n - 1}
  }

  lemma HealthyGrows(recs: seq<Record>, k: nat)
    requires k < |recs|
    ensures var t := recs[k];
      |HealthyRecords(recs[..k + 1])| ==
        |HealthyRecords(recs[..k])| + if Counted(t) && t.known && t.healthy then 1 else 0
  {
    var t, now, before := recs[k], HealthyRecords(recs[..k + 1]), HealthyRecords(recs[..k]);
    if Counted(t) && t.known && t.healthy {
      assert now == before + {k};
    } else {
      assert now == before;
    }
  }

  lemma DownGrows(recs: seq<Record>, k: nat)
    requires k < |recs|
    ensures var t := recs[k];
      |DownRecords(recs[..k + 1])| == |DownRecords(recs[..k])| + if Counted(t) && t.known && !t.healthy then 1 else 0
  {
    var t, now, before := recs[k], DownRecords(recs[..k + 1]), DownRecords(recs[..k]);
    if Counted(t) && t.known && !t.healthy {
      assert now == before + {k};
    } else {
      assert now == before;
    }
  }

  method CountHealth(recs: seq<Record>) returns (healthy: nat, down: nat)
    ensures healthy == |HealthyRecords(recs)| && down == |DownRecords(recs)|
  {
    healthy, down := 0, 0;
    assert HealthyRecords(recs[..0]) == {} && DownRecords(recs[..0]) == {};
    hide HealthyRecords, DownRecords;
    for k := 0 to |recs|
      invariant healthy == |HealthyRecords(recs[..k])| && down == |DownRecords(recs[..k])|
    {
      var t := recs[k];
      HealthyGrows(recs, k);
      DownGrows(recs, k);
      if t.member.Some? && t.member.value.isLearner { continue; }
      if t.known && t.healthy {
        healthy := healthy + 1;
      } else if t.known {
        down := down + 1;
      }
    }
    assert recs[..|recs|] == recs;
  }

  method CountVoting(members: seq<Member>) returns (total: nat)
    ensures total == |VotingMembers(members)|
  {
    total := 0;
    for k := 0 to |members|
      invariant total == |VotingMembers(members[..k])|
    {
      assert VotingMembers(members[..k + 1]) ==
        VotingMembers(members[..k]) + if !members[k].isLearner then {k} else {};
      if !members[k].isLearner { total := total + 1; }
    }
    assert members[..|members|] == members;
  }

  // ----- what "lost" means

  /** place puts every counted record at its own voter: the member it was
      matched to, or the node itself when there is no member list. */
  ghost predicate Placed(recs: seq<Record>, members: seq<Member>, place: seq<nat>)
  {
    && |place| == |recs|
    && (forall i :: 0 <= i < |recs| && Counted(recs[i]) ==>
          && place[i] in Voters(recs, members)
          && if members != [] then recs[i].member == Some(members[place[i]]) else place[i] == i)
    && (forall i, j :: 0 <= i < j < |recs| && Counted(recs[i]) && Counted(recs[j]) ==> place[i] != place[j])
  }

  /** up is a possible set of healthy voters, given what is known. */
  ghost predicate Possible(recs: seq<Record>, members: seq<Member>, place: seq<nat>, up: set<nat>)
    requires |place| == |recs|
  {
    && up <= Voters(recs, members)
    && forall i :: 0 <= i < |recs| && Counted(recs[i]) && recs[i].known ==> (place[i] in up <==> recs[i].healthy)
  }

  ghost function Places(of: set<nat>, place: seq<nat>): set<nat>
    requires forall i :: i in of ==> i < |place|
  {
    set i | i in of :: place[i]
  }

  lemma {:induction false} PlacesCount(of: set<nat>, place: seq<nat>)
    requires forall i :: i in of ==> i < |place|
    requires forall i, j :: i in of && j in of && i != j ==> place[i] != place[j]
    ensures |Places(of, place)| == |of|
    decreases of
  {
    if of != {} {
      var i :| i in of;
      PlacesCount(of - {i}, place);
      assert Places(of, place) == Places(of - {i}, place) + {place[i]};
      assert place[i] !in Places(of - {i}, place);
    }
  }

  /** Down and healthy records stand for different voters, one each. */
  lemma PlacedApart(recs: seq<Record>, members: seq<Member>, place: seq<nat>)
    requires Placed(recs, members, place)
    ensures var down, healthy := Places(DownRecords(recs), place), Places(HealthyRecords(recs), place);
      && down <= Voters(recs, members) && healthy <= Voters(recs, members) - down
      && |down| == |DownRecords(recs)| && |healthy| == |HealthyRecords(recs)|
  {
    hide Voters;
    PlacesCount(DownRecords(recs), place);
    PlacesCount(HealthyRecords(recs), place);
  }

  lemma UpIsNotDown(recs: seq<Record>, members: seq<Member>, place: seq<nat>, up: set<nat>)
    requires |place| == |recs| && Possible(recs, members, place, up)
    ensures up <= Voters(recs, members) - Places(DownRecords(recs), place)
  {
    hide Voters;
  }

  /** At most the voters not known to be down can be healthy, and all of them
      may be. */
  lemma MostPossible(recs: seq<Record>, members: seq<Member>, place: seq<nat>) returns (most: set<nat>)
    requires Placed(recs, members, place)
    ensures Possible(recs, members, place, most)
    ensures |most| == |Voters(recs, members)| - |DownRecords(recs)|
    ensures forall up :: Possible(recs, members, place, up) ==> |up| <= |most|
    ensures |HealthyRecords(recs)| <= |most|
  {
    var voters, down, healthy := Voters(recs, members), DownRecords(recs), HealthyRecords(recs);
    PlacedApart(recs, members, place);
    most := voters - Places(down, place);
    SubsetSize(Places(down, place), voters);
    SubsetSize(Places(healthy, place), most);
    MostIsPossible(recs, members, place);
    hide Possible, Places;
    forall up | Possible(recs, members, place, up)
      ensures |up| <= |most|
    {
      UpIsNotDown(recs, members, place, up);
      SubsetSize(up, most);
    }
  }

  lemma MostIsPossible(recs: seq<Record>, members: seq<Member>, place: seq<nat>)
    requires Placed(recs, members, place)
    ensures Possible(recs, members, place, Voters(recs, members) - Places(DownRecords(recs), place))
  {
    hide Voters;
  }

  /** Quorum is lost exactly when no way for the unknown voters to be healthy
      gives a majority. */
  lemma LostMeansNoMajority(recs: seq<Record>, members: seq<Member>, place: seq<nat>)
    requires Placed(recs, members, place)
    ensures Lost(recs, members) <==>
      Voters(recs, members) != {} &&
      forall up :: Possible(recs, members, place, up) ==> 2 * |up| <= |Voters(recs, members)|
  {
    var most := MostPossible(recs, members, place);
  }

  /** more knows everything recs knows. */
  ghost predicate Extends(recs: seq<Record>, more: seq<Record>)
  {
    && |recs| == |more|
    && forall i :: 0 <= i < |recs| ==>
      more[i].member == recs[i].member && (recs[i].known ==> more[i] == recs[i])
  }

  ghost function CountedRecords(recs: seq<Record>): set<nat>
  {
    set i | 0 <= i < |recs| && Counted(recs[i])
  }

  /** recs with every node nobody could check found healthy. */
  ghost function AllFoundHealthy(recs: seq<Record>): (more: seq<Record>)
    ensures |more| == |recs|
  {
    seq(|recs|, i requires 0 <= i < |recs| => if recs[i].known then recs[i] else Record(recs[i].member, true, true))
  }

  lemma MostHealthy(recs: seq<Record>)
    ensures Extends(recs, AllFoundHealthy(recs))
    ensures DownRecords(AllFoundHealthy(recs)) == DownRecords(recs)
    ensures |HealthyRecords(AllFoundHealthy(recs))| == |CountedRecords(recs)| - |DownRecords(recs)|
  {
    assert HealthyRecords(AllFoundHealthy(recs)) == CountedRecords(recs) - DownRecords(recs);
    SubsetSize(DownRecords(recs), CountedRecords(recs));
  }

  lemma ExtensionCounts(recs: seq<Record>, more: seq<Record>)
    requires Extends(recs, more)
    ensures CountedRecords(more) == CountedRecords(recs)
    ensures |DownRecords(recs)| <= |DownRecords(more)|
    ensures |HealthyRecords(more)| <= |CountedRecords(recs)| - |DownRecords(more)|
  {
    SubsetSize(DownRecords(recs), DownRecords(more));
    HealthyOrDown(more);
    assert CountedRecords(more) == CountedRecords(recs);
  }

  ghost predicate StaysLost(recs: seq<Record>, members: seq<Member>)
  {
    forall more :: Extends(recs, more) ==> Lost(more, members)
  }

  /** A lost quorum stays lost whatever new evidence says exactly when the
      counted records not known to be down are less than a majority too. */
  lemma LostStaysLost(recs: seq<Record>, members: seq<Member>)
    ensures StaysLost(recs, members) <==>
      && Lost(recs, members)
      && 2 * (|CountedRecords(recs)| - |DownRecords(recs)|) <= |Voters(recs, members)|
  {
    hide HealthyRecords, DownRecords, CountedRecords, AllFoundHealthy;
    if StaysLost(recs, members) {
      assert Extends(recs, recs);
      MostHealthy(recs);
    }
    forall more | Extends(recs, more)
      ensures Lost(recs, members) && |CountedRecords(recs)| - |DownRecords(recs)| < Majority(|Voters(recs, members)|)
        ==> Lost(more, members)
    {
      ExtensionCounts(recs, more);
    }
  }

  /** So it does while no more records are counted than there are voters. */
  lemma OneRecordAVoter(recs: seq<Record>, members: seq<Member>)
    requires |CountedRecords(recs)| <= |Voters(recs, members)| && Lost(recs, members)
    ensures StaysLost(recs, members)
  {
    hide StaysLost;
    LostStaysLost(recs, members);
  }

  lemma HealthyOrDown(recs: seq<Record>)
    ensures |HealthyRecords(recs)| + |DownRecords(recs)| <= |CountedRecords(recs)|
  {
    SubsetSize(DownRecords(recs), CountedRecords(recs));
    SubsetSize(HealthyRecords(recs), CountedRecords(recs) - DownRecords(recs));
  }

  /** Otherwise it need not: one voter, and a second, stray node found healthy. */
  lemma StrayNodesMayBringItBack(m: Member)
    requires !m.isLearner
    ensures var recs := [Record(Some(m), true, false), Record(None, false, false)];
      var more := [Record(Some(m), true, false), Record(None, true, true)];
      Extends(recs, more) && Lost(recs, [m]) && !Lost(more, [m])
  {
    var recs := [Record(Some(m), true, false), Record(None, false, false)];
    var more := [Record(Some(m), true, false), Record(None, true, true)];
    assert VotingMembers([m]) == {0};
    assert DownRecords(recs) == {0} && HealthyRecords(recs) == {};
    assert HealthyRecords(more) == {1};
  }

  // ----- the leader

  ghost function Backers(statuses: map<string, Status>, keys: set<string>, id: string): set<string>
    requires keys <= statuses.Keys
  {
    set k | k in keys && statuses[k].leader == id
  }

  /** How many statuses name id as the leader, among those at keys. */
  ghost function VotesAt(statuses: map<string, Status>, keys: set<string>, id: string): nat
    requires keys <= statuses.Keys
  {
    |Backers(statuses, keys, id)|
  }

  ghost function Votes(statuses: map<string, Status>, id: string): nat
  {
    VotesAt(statuses, statuses.Keys, id)
  }

  /** id is the lowest of the leader ids most statuses name; "" when none
      names one. */
  ghost predicate Elected(statuses: map<string, Status>, id: string)
  {
    && (forall id' :: id' != "" ==> Votes(statuses, id') <= if id == "" then 0 else Votes(statuses, id))
    && (id != "" ==> Votes(statuses, id) > 0)
    && (forall id' :: id != "" && id' != "" && Votes(statuses, id') == Votes(statuses, id) ==> AtMost(id, id'))
  }

  lemma ElectedIsUnique(statuses: map<string, Status>, id: string, id': string)
    requires Elected(statuses, id) && Elected(statuses, id')
    ensures id == id'
  {
    LessTrichotomy(id, id');
  }

  ghost predicate Tallied(votes: map<string, nat>, statuses: map<string, Status>, keys: set<string>)
    requires keys <= statuses.Keys
  {
    && (forall id :: id in votes <==> id != "" && VotesAt(statuses, keys, id) > 0)
    && (forall id :: id in votes ==> votes[id] == VotesAt(statuses, keys, id))
  }

  lemma OneMoreVote(statuses: map<string, Status>, keys: set<string>, k: string, id: string)
    requires keys <= statuses.Keys && k in statuses && k !in keys
    ensures VotesAt(statuses, keys + {k}, id) == VotesAt(statuses, keys, id) + if statuses[k].leader == id then 1 else 0
  {
    assert Backers(statuses, keys + {k}, id) ==
      Backers(statuses, keys, id) + if statuses[k].leader == id then {k} else {};
  }

  lemma NoVotesYet(statuses: map<string, Status>, id: string)
    ensures VotesAt(statuses, {}, id) == 0
  {}

  lemma TallyGrows(votes: map<string, nat>, statuses: map<string, Status>, keys: set<string>, k: string)
    requires keys <= statuses.Keys && k in statuses && k !in keys && Tallied(votes, statuses, keys)
    ensures var leader := statuses[k].leader;
      Tallied(
        if leader == "" then votes else votes[leader := (if leader in votes then votes[leader] else 0) + 1],
        statuses, keys + {k})
  {
    forall id
      ensures VotesAt(statuses, keys + {k}, id) ==
        VotesAt(statuses, keys, id) + if statuses[k].leader == id then 1 else 0
    {
      OneMoreVote(statuses, keys, k, id);
    }
    hide VotesAt;
  }

  /** The statuses are visited in whatever order the map gives them. */
  method TallyVotes(statuses: map<string, Status>) returns (votes: map<string, nat>)
    ensures Tallied(votes, statuses, statuses.Keys)
  {
    votes := map[];
    var rest := statuses.Keys;
    ghost var seen: set<string> := {};
    forall id
      ensures VotesAt(statuses, {}, id) == 0
    {
      NoVotesYet(statuses, id);
    }
    assert Tallied(votes, statuses, seen);
    hide Tallied, VotesAt;
    while rest != {}
      invariant rest !! seen && rest + seen == statuses.Keys
      invariant Tallied(votes, statuses, seen)
      decreases rest
    {
      var k :| k in rest;
      TallyGrows(votes, statuses, seen, k);
      var leader := statuses[k].leader;
      if leader != "" {
        votes := votes[leader := (if leader in votes then votes[leader] else 0) + 1];
      }
      rest, seen := rest - {k}, seen + {k};
    }
    assert seen == statuses.Keys;
  }

  /** The first of the sorted ids with most votes is the elected one. */
  lemma FirstOfMost(statuses: map<string, Status>, votes: map<string, nat>, keys: seq<string>, best: string)
    requires Tallied(votes, statuses, statuses.Keys) && forall id :: id in keys <==> id in votes
    requires if best == "" then keys == [] else best in keys
    requires forall k :: k in keys ==> votes[k] <= votes[best]
    requires forall k :: k in keys && votes[k] == votes[best] ==> AtMost(best, k)
    ensures Elected(statuses, best)
  {
    hide VotesAt, AtMost;
    forall id | id != ""
      ensures Votes(statuses, id) <= if best == "" then 0 else Votes(statuses, best)
      ensures best != "" && Votes(statuses, id) == Votes(statuses, best) ==> AtMost(best, id)
    {
      if Votes(statuses, id) > 0 { assert id in keys; }
    }
  }

  /** The leader id most statuses agree on; ties go to the lowest id. */
  method ElectLeader(statuses: map<string, Status>) returns (best: string)
    ensures Elected(statuses, best)
  {
    var votes := TallyVotes(statuses);
    var keys := SortedKeys(votes);
    best := "";
    for i := 0 to |keys|
      invariant best == "" ==> i == 0
      invariant best != "" ==> best in keys[..i]
      invariant forall j :: 0 <= j < i ==> votes[keys[j]] <= votes[best]
      invariant forall j :: 0 <= j < i && votes[keys[j]] == votes[best] ==> AtMost(best, keys[j])
    {
      var n := votes[keys[i]];
      if n > (if best in votes then votes[best] else 0) {
        best := keys[i];
        LessTrichotomy(best, best);
      }
    }
    FirstOfMost(statuses, votes, keys, best);
  }

  /** m's own status says that it leads. */
  ghost predicate ClaimsToLead(m: Member, statuses: map<string, Status>)
  {
    m.id in statuses && statuses[m.id].leader != "" && statuses[m.id].leader == statuses[m.id].memberID
  }

  /** The status of the last member that claims to lead. */
  ghost function LastClaim(members: seq<Member>, statuses: map<string, Status>): Option<(string, nat, nat)>
  {
    if members == [] then None
    else
      var m := members[|members| - 1];
      if ClaimsToLead(m, statuses) then Some((m.name, statuses[m.id].raftTerm, statuses[m.id].raftIndex))
      else LastClaim(members[..|members| - 1], statuses)
  }

  /** members[i] is the last that claims to lead, with this name, term and
      index. */
  ghost predicate IsLastClaim(members: seq<Member>, statuses: map<string, Status>, i: nat, claim: (string, nat, nat))
  {
    && i < |members| && ClaimsToLead(members[i], statuses)
    && (forall j :: i < j < |members| ==> !ClaimsToLead(members[j], statuses))
    && claim == (members[i].name, statuses[members[i].id].raftTerm, statuses[members[i].id].raftIndex)
  }

  lemma {:induction false} LastClaimIsLast(members: seq<Member>, statuses: map<string, Status>)
    ensures LastClaim(members, statuses).None? ==> forall m :: m in members ==> !ClaimsToLead(m, statuses)
    ensures LastClaim(members, statuses).Some? ==>
      exists i: nat :: IsLastClaim(members, statuses, i, LastClaim(members, statuses).value)
  {
    if members != [] {
      var n := |members| - 1;
      var init := members[..n];
      LastClaimIsLast(init, statuses);
      assert members == init + [members[n]];
      if ClaimsToLead(members[n], statuses) {
        var claim := (members[n].name, statuses[members[n].id].raftTerm, statuses[members[n].id].raftIndex);
        assert LastClaim(members, statuses) == Some(claim);
        assert IsLastClaim(members, statuses, n, claim);
      } else if LastClaim(init, statuses).Some? {
        var claim := LastClaim(init, statuses).value;
        var i: nat :| IsLastClaim(init, statuses, i, claim);
        assert LastClaim(members, statuses) == Some(claim);
        assert IsLastClaim(members, statuses, i, claim);
      }
    }
  }

  /** The name of the last member with this id, "" when there is none. */
  ghost function NameOfID(members: seq<Member>, id: string): string
  {
    if members == [] then ""
    else
      var m := members[|members| - 1];
      if m.id == id then m.name else NameOfID(members[..|members| - 1], id)
  }

  lemma {:induction false} NameOfIDIsLast(members: seq<Member>, id: string, i: nat)
    requires i < |members| && members[i].id == id && forall j :: i < j < |members| ==> members[j].id != id
    ensures NameOfID(members, id) == members[i].name
  {
    if i < |members| - 1 { NameOfIDIsLast(members[..|members| - 1], id, i); }
  }

  lemma {:induction false} NobodyHasID(members: seq<Member>, id: string)
    requires forall m :: m in members ==> m.id != id
    ensures NameOfID(members, id) == ""
  {
    if members != [] { NobodyHasID(members[..|members| - 1], id); }
  }

  method EtcdQuorumOf(recs: seq<Record>, members: seq<Member>, statuses: map<string, Status>) returns (q: EtcdQuorum)
    ensures q.haveMembers == (members != [])
    ensures members == [] ==> q.total == |recs|
    ensures members != [] ==> q.total == |set i | 0 <= i < |members| && !members[i].isLearner|
    ensures q.healthy == |set i | 0 <= i < |recs| && recs[i].known && recs[i].healthy && !IsLearner(recs[i])|
    ensures q.down == |set i | 0 <= i < |recs| && recs[i].known && !recs[i].healthy && !IsLearner(recs[i])|
    ensures q.lost <==> q.total > 0 && 2 * q.healthy <= q.total && 2 * (q.total - q.down) <= q.total
    ensures q.lost <==> Lost(recs, members)
    ensures match LastClaim(members, statuses)
      case Some(claim) => q.term == claim.1 && q.leaderIndex == claim.2 && (claim.0 != "" ==> q.leader == claim.0)
      case None => q.term == 0 && q.leaderIndex == 0
    ensures LastClaim(members, statuses).None? || LastClaim(members, statuses).value.0 == "" ==>
      forall id :: Elected(statuses, id) ==> q.leader == NameOfID(members, id)
  {
    assert HealthyRecords(recs) == set i | 0 <= i < |recs| && recs[i].known && recs[i].healthy && !IsLearner(recs[i]);
    assert DownRecords(recs) == set i | 0 <= i < |recs| && recs[i].known && !recs[i].healthy && !IsLearner(recs[i]);
    q := EtcdQuorum(0, 0, |members| > 0, "", 0, 0, false, 0);
    var total := CountVoting(members);
    if !q.haveMembers {
      total := |recs|;
    }
    var healthy, down := CountHealth(recs);
    q := q.(total := total, healthy := healthy);
    for i := 0 to |members|
      invariant q == EtcdQuorum(total, healthy, |members| > 0, q.leader, q.term, q.leaderIndex, false, 0)
      invariant match LastClaim(members[..i], statuses)
        case Some(claim) => (q.leader, q.term, q.leaderIndex) == claim
        case None => (q.leader, q.term, q.leaderIndex) == ("", 0, 0)
    {
      assert members[..i + 1][..i] == members[..i];
      var m := members[i];
      if m.id !in statuses { continue; }
      var st := statuses[m.id];
      if st.leader != "" && st.leader == st.memberID {
        q := q.(leader := m.name, term := st.raftTerm, leaderIndex := st.raftIndex);
      }
    }
    assert members[..|members|] == members;
    if q.leader == "" {
      var best := ElectLeader(statuses);
      var name := FindName(members, best);
      q := q.(leader := name);
      forall id | Elected(statuses, id)
        ensures id == best
      {
        ElectedIsUnique(statuses, id, best);
      }
    }
    var need := q.total / 2 + 1;
    q := q.(lost := q.total > 0 && q.healthy < need && q.total - down < need, down := down);
  }

  method FindName(members: seq<Member>, id: string) returns (name: string)
    ensures name == NameOfID(members, id)
  {
    name := "";
    for i := 0 to |members|
      invariant name == NameOfID(members[..i], id)
    {
      assert members[..i + 1][..i] == members[..i];
      if members[i].id == id { name := members[i].name; }
    }
    assert members[..|members|] == members;
  }
}
