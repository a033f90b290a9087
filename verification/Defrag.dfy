/** The one-member-at-a-time defragmentation of an etcd cluster, run against
    commands that may answer anything and a context that may be cancelled at
    any moment. */
module Defrag {
  import opened Common
  import opened Grpc

  datatype Verb = EndpointStatus | Defragment | EndpointHealth

  datatype Command = Command(timeout: string, endpoint: string, verb: Verb)

  /** What one etcdctl call came back with, as far as the output parses. */
  datatype Answer = Answer(err: Option<string>, sizes: seq<int>, health: seq<bool>)

  /** The world: the answer to the n-th command and whether the context is
      done when the n-th command has been answered. */
  datatype World = World(answer: (nat, Command) -> Answer, cancelled: nat -> bool)

  function AnswerAt(world: World, n: nat, cmd: Command): Answer { world.answer(n, cmd) }

  predicate CancelledAt(world: World, n: nat) { world.cancelled(n) }

  /** One command of the run, for the member at this place in the order. */
  datatype Event = Event(member: nat, cmd: Command, answer: Answer)

  datatype Step = Step(
    member: string, endpoint: string, leader: bool, before: int, after: int,
    err: Option<string>, healthy: bool, skipped: string)

  datatype Report = Report(steps: seq<Step>, aborted: string)

  const HEALTH_TRIES := 5
  const EARLIER_UNHEALTHY := "an earlier member is unhealthy"
  const IS_LEARNER := "learner (not serving reads or writes yet)"
  const NO_URL := "no client URL"

  // ----- the order

  function Followers(members: seq<Member>, leaderID: string): seq<Member>
  {
    if members == [] then []
    else
      var m := members[|members| - 1];
      Followers(members[..|members| - 1], leaderID) + if m.id == leaderID then [] else [m]
  }

  /** The last member with the leader's id, as a list of at most one. */
  function Leader(members: seq<Member>, leaderID: string): seq<Member>
  {
    if members == [] then []
    else
      var m := members[|members| - 1];
      if m.id == leaderID then [m] else Leader(members[..|members| - 1], leaderID)
  }

  /** Followers in their given order, then the leader. */
  function RunOrder(members: seq<Member>, leaderID: string): seq<Member>
  {
    Followers(members, leaderID) + Leader(members, leaderID)
  }

  /** at holds the places of all members but the bearers of the leader's id,
      in increasing order, and fs are the members at those places. */
  ghost predicate InGivenOrder(members: seq<Member>, leaderID: string, fs: seq<Member>, at: seq<nat>)
  {
    && |at| == |fs|
    && (forall k, m :: 0 <= k < m < |at| ==> at[k] < at[m])
    && (forall i: nat :: i in at <==> i < |members| && members[i].id != leaderID)
    && forall k :: 0 <= k < |at| ==> at[k] < |members| && fs[k] == members[at[k]]
  }

  lemma {:induction false} FollowersKeepOrder(members: seq<Member>, leaderID: string) returns (at: seq<nat>)
    ensures InGivenOrder(members, leaderID, Followers(members, leaderID), at)
  {
    at := [];
    if members != [] {
      hide InGivenOrder;
      var n := |members| - 1;
      at := FollowersKeepOrder(members[..n], leaderID);
      OneMoreMember(members[..n], members[n], leaderID, Followers(members[..n], leaderID), at);
      assert members == members[..n] + [members[n]];
      if members[n].id != leaderID { at := at + [n]; }
    }
  }

  lemma OneMoreMember(init: seq<Member>, m: Member, leaderID: string, fs: seq<Member>, at: seq<nat>)
    requires InGivenOrder(init, leaderID, fs, at)
    ensures m.id == leaderID ==> InGivenOrder(init + [m], leaderID, fs, at)
    ensures m.id != leaderID ==> InGivenOrder(init + [m], leaderID, fs + [m], at + [|init|])
  {
    var members, more := init + [m], at + [|init|];
    assert forall i: nat :: i < |init| ==> members[i] == init[i];
    assert members[|init|] == m;
    assert forall k :: 0 <= k < |at| ==> at[k] in at && more[k] == at[k];
    assert forall i: nat :: i in more <==> i in at || i == |init|;
  }

  /** l is the last place with the leader's id. */
  ghost predicate IsLeader(members: seq<Member>, leaderID: string, l: nat)
  {
    && l < |members| && members[l].id == leaderID
    && forall j :: l < j < |members| ==> members[j].id != leaderID
  }

  lemma {:induction false} LeaderIsLast(members: seq<Member>, leaderID: string)
    ensures (exists m :: m in members && m.id == leaderID) ==>
      exists l: nat :: IsLeader(members, leaderID, l) && Leader(members, leaderID) == [members[l]]
    ensures (forall m :: m in members ==> m.id != leaderID) ==> Leader(members, leaderID) == []
  {
    if members != [] {
      var n := |members| - 1;
      var init := members[..n];
      LeaderIsLast(init, leaderID);
      assert members == init + [members[n]];
      if members[n].id == leaderID {
        assert IsLeader(members, leaderID, n);
      } else if m :| m in members && m.id == leaderID {
        assert m in init;
        var l: nat :| IsLeader(init, leaderID, l) && Leader(init, leaderID) == [init[l]];
        assert IsLeader(members, leaderID, l);
      }
    }
  }

  /** The followers in their given order, and then the leader if there is one. */
  ghost predicate FollowersThenLeader(members: seq<Member>, leaderID: string, ordered: seq<Member>, at: seq<nat>)
  {
    && |at| <= |ordered| && InGivenOrder(members, leaderID, ordered[..|at|], at)
    && ((forall m :: m in members ==> m.id != leaderID) ==> |ordered| == |at|)
    && ((exists m :: m in members && m.id == leaderID) ==>
          exists l: nat :: IsLeader(members, leaderID, l) && ordered[|at|..] == [members[l]])
  }

  lemma RunOrderKeepsOrder(members: seq<Member>, leaderID: string) returns (at: seq<nat>)
    ensures FollowersThenLeader(members, leaderID, RunOrder(members, leaderID), at)
  {
    hide InGivenOrder, IsLeader;
    at := FollowersKeepOrder(members, leaderID);
    LeaderIsLast(members, leaderID);
    assert |at| == |Followers(members, leaderID)| by { SameCount(members, leaderID, Followers(members, leaderID), at); }
    assert RunOrder(members, leaderID)[..|at|] == Followers(members, leaderID);
    assert RunOrder(members, leaderID)[|at|..] == Leader(members, leaderID);
  }

  lemma SameCount(members: seq<Member>, leaderID: string, fs: seq<Member>, at: seq<nat>)
    requires InGivenOrder(members, leaderID, fs, at)
    ensures |at| == |fs|
  {}

  method OrderMembers(members: seq<Member>, leaderID: string) returns (ordered: seq<Member>)
    ensures ordered == RunOrder(members, leaderID)
    ensures exists at :: FollowersThenLeader(members, leaderID, ordered, at)
  {
    ghost var at := RunOrderKeepsOrder(members, leaderID);
    ordered := [];
    var leader: Option<Member> := None;
    for i := 0 to |members|
      invariant ordered == Followers(members[..i], leaderID)
      invariant (match leader case None => [] case Some(m) => [m]) == Leader(members[..i], leaderID)
    {
      assert members[..i + 1][..i] == members[..i];
      if members[i].id == leaderID {
        leader := Some(members[i]);
        continue;
      }
      ordered := ordered + [members[i]];
    }
    assert members[..|members|] == members;
    if leader.Some? {
      ordered := ordered + [leader.value];
    }
  }

  ghost function LeaderCount(members: seq<Member>, leaderID: string): nat
  {
    if members == [] then 0
    else LeaderCount(members[..|members| - 1], leaderID) + if members[|members| - 1].id == leaderID then 1 else 0
  }

  lemma {:induction false} OrderCounts(members: seq<Member>, leaderID: string)
    ensures |RunOrder(members, leaderID)| + LeaderCount(members, leaderID)
      == |members| + if LeaderCount(members, leaderID) > 0 then 1 else 0
    ensures |Leader(members, leaderID)| == if LeaderCount(members, leaderID) > 0 then 1 else 0
    ensures LeaderCount(members, leaderID) <= 1 ==>
      multiset(RunOrder(members, leaderID)) == multiset(members)
  {
    if members != [] {
      var init, m := members[..|members| - 1], members[|members| - 1];
      OrderCounts(init, leaderID);
      assert members == init + [m];
      if m.id == leaderID && LeaderCount(init, leaderID) == 0 {
        assert Leader(init, leaderID) == [] && RunOrder(init, leaderID) == Followers(init, leaderID);
      }
    }
  }

  lemma {:induction false} LeaderIsLeader(members: seq<Member>, leaderID: string)
    ensures forall m :: m in Leader(members, leaderID) ==> m.id == leaderID
    ensures forall m :: m in Followers(members, leaderID) ==> m.id != leaderID
  {
    if members != [] { LeaderIsLeader(members[..|members| - 1], leaderID); }
  }

  /** Every member gets its turn exactly when the leader's id is not shared:
      then the run order is a permutation with the leader, if any, last. With
      a shared id the earlier bearers drop out. */
  lemma EveryMemberHasATurn(members: seq<Member>, leaderID: string)
    ensures multiset(RunOrder(members, leaderID)) == multiset(members) <==> LeaderCount(members, leaderID) <= 1
    ensures forall i :: 0 <= i < |RunOrder(members, leaderID)| - 1 ==> RunOrder(members, leaderID)[i].id != leaderID
  {
    OrderCounts(members, leaderID);
    LeaderIsLeader(members, leaderID);
    if multiset(RunOrder(members, leaderID)) == multiset(members) {
      assert |multiset(RunOrder(members, leaderID))| == |multiset(members)|;
    }
    var order, n := RunOrder(members, leaderID), |Followers(members, leaderID)|;
    forall i | 0 <= i < |order| - 1
      ensures order[i].id != leaderID
    {
      assert |Leader(members, leaderID)| <= 1;
      if i < n { assert order[i] == Followers(members, leaderID)[i]; }
    }
  }

  // ----- one member

  /** The first size listed, 0 when the call failed or listed none. */
  ghost predicate ShowsSize(a: Answer, size: int)
  {
    && (a.err.None? && a.sizes != [] ==> size == a.sizes[0])
    && (a.err.Some? || a.sizes == [] ==> size == 0)
  }

  function SizeOf(a: Answer): (size: int)
    ensures ShowsSize(a, size)
  {
    if a.err.Some? || a.sizes == [] then 0 else a.sizes[0]
  }

  /** A health check that shows the member serving again. */
  predicate Recovers(e: Event)
  {
    e.cmd.verb == EndpointHealth && e.answer.err.None? && true in e.answer.health
  }

  ghost predicate Sends(e: Event, member: nat, timeout: string, endpoint: string, verb: Verb)
  {
    e.member == member && e.cmd == Command(timeout, endpoint, verb)
  }

  /** Every command of log is answered by the world. */
  ghost predicate Answered(world: World, start: nat, log: seq<Event>)
  {
    forall k :: 0 <= k < |log| ==> log[k].answer == AnswerAt(world, start + k, log[k].cmd)
  }

  /** From log[3] on there are health checks only. */
  ghost predicate AsksHealth(log: seq<Event>, place: nat, endpoint: string)
  {
    forall k :: 3 <= k < |log| ==> Sends(log[k], place, "10s", endpoint, EndpointHealth)
  }

  /** The check at log[k] failed, and the context was not done after it. */
  ghost predicate FailedCheck(world: World, start: nat, log: seq<Event>, k: nat)
    requires k < |log|
  {
    !Recovers(log[k]) && !CancelledAt(world, start + k + 1)
  }

  /** All health checks but the last failed. */
  ghost predicate KeptAsking(world: World, start: nat, log: seq<Event>)
  {
    forall k: nat :: 3 <= k < |log| - 1 ==> FailedCheck(world, start, log, k)
  }

  /** The commands for one touched member: its size, the defragmentation, and
      unless that failed its size again and up to five health checks, ending
      with the first that shows it healthy. */
  ghost predicate Touched(world: World, start: nat, log: seq<Event>, place: nat, m: Member, step: Step)
  {
    && m.clientURLs != [] && step.endpoint == m.clientURLs[0]
    && Answered(world, start, log)
    && |log| >= 2
    && Sends(log[0], place, "10s", step.endpoint, EndpointStatus) && ShowsSize(log[0].answer, step.before)
    && Sends(log[1], place, "10m", step.endpoint, Defragment) && step.err == log[1].answer.err
    && (step.err.Some? ==> |log| == 2 && step.after == 0 && !step.healthy)
    && (step.err.None? ==>
      && 4 <= |log| <= 8
      && Sends(log[2], place, "10s", step.endpoint, EndpointStatus) && ShowsSize(log[2].answer, step.after)
      && AsksHealth(log, place, step.endpoint) && KeptAsking(world, start, log)
      && (step.healthy <==> Recovers(log[|log| - 1]))
      && (!step.healthy ==> |log| == 8 || CancelledAt(world, start + |log|)))
  }

  /** The commands of a turn up to its health checks, the size read afterwards
      included. */
  ghost predicate Opened(head: seq<Event>, place: nat, m: Member, step: Step)
  {
    && |head| == 3 && m.clientURLs != [] && step.endpoint == m.clientURLs[0]
    && Sends(head[0], place, "10s", step.endpoint, EndpointStatus) && ShowsSize(head[0].answer, step.before)
    && Sends(head[1], place, "10m", step.endpoint, Defragment) && step.err == head[1].answer.err == None
    && Sends(head[2], place, "10s", step.endpoint, EndpointStatus) && ShowsSize(head[2].answer, step.after)
  }

  /** The health checks from log[3] on after the i-th round of their loop,
      which cancellation ends early by moving i past its end. */
  ghost predicate Checked(world: World, start: nat, log: seq<Event>, place: nat, endpoint: string,
      i: nat, healthy: bool)
  {
    && 3 <= |log| <= 3 + HEALTH_TRIES
    && (i <= HEALTH_TRIES ==> |log| == 3 + i)
    && (i > HEALTH_TRIES ==> |log| > 3 && !healthy && CancelledAt(world, start + |log|))
    && Answered(world, start, log) && AsksHealth(log, place, endpoint) && KeptAsking(world, start, log)
    && (healthy <==> |log| > 3 && Recovers(log[|log| - 1]))
    && (0 < i < HEALTH_TRIES && !healthy ==> !CancelledAt(world, start + |log|))
  }

  lemma OneMoreAnswer(world: World, start: nat, log: seq<Event>, e: Event)
    requires Answered(world, start, log) && e.answer == AnswerAt(world, start + |log|, e.cmd)
    ensures Answered(world, start, log + [e])
  {
    hide AnswerAt;
    assert forall k :: 0 <= k < |log| ==> (log + [e])[k] == log[k];
  }

  lemma OneMoreAsked(log: seq<Event>, place: nat, endpoint: string, e: Event)
    requires AsksHealth(log, place, endpoint) && Sends(e, place, "10s", endpoint, EndpointHealth)
    ensures AsksHealth(log + [e], place, endpoint)
  {
    hide Sends;
    assert forall k :: 0 <= k < |log| ==> (log + [e])[k] == log[k];
  }

  lemma AskedOnceMore(world: World, start: nat, log: seq<Event>, e: Event)
    requires KeptAsking(world, start, log)
    requires |log| > 3 ==> FailedCheck(world, start, log, |log| - 1)
    ensures KeptAsking(world, start, log + [e])
  {
    hide FailedCheck;
    forall k: nat | 3 <= k < |log|
      ensures FailedCheck(world, start, log + [e], k)
    {
      assert FailedCheck(world, start, log, k);
      CheckStays(world, start, log, e, k);
    }
  }

  lemma CheckStays(world: World, start: nat, log: seq<Event>, e: Event, k: nat)
    requires k < |log| && FailedCheck(world, start, log, k)
    ensures FailedCheck(world, start, log + [e], k)
  {
    assert (log + [e])[k] == log[k];
  }

  lemma OneMoreCheck(world: World, start: nat, log: seq<Event>, place: nat, endpoint: string,
      i: nat, e: Event, next: nat)
    requires i < HEALTH_TRIES && Checked(world, start, log, place, endpoint, i, false)
    requires Sends(e, place, "10s", endpoint, EndpointHealth) && e.answer == AnswerAt(world, start + |log|, e.cmd)
    requires next == if !Recovers(e) && CancelledAt(world, start + |log| + 1) then HEALTH_TRIES + 1 else i + 1
    ensures Checked(world, start, log + [e], place, endpoint, next, Recovers(e))
  {
    hide Sends, Recovers, Answered, AsksHealth, KeptAsking, AnswerAt, CancelledAt;
    var log' := log + [e];
    assert log'[|log'| - 1] == e;
    assert CancelledAt(world, start + |log'|) == CancelledAt(world, start + |log| + 1);
    OneMoreAnswer(world, start, log, e);
    OneMoreAsked(log, place, endpoint, e);
    if |log| > 3 { assert start + (|log| - 1) + 1 == start + |log|; }
    AskedOnceMore(world, start, log, e);
  }

  /** A turn ends healthy, or after five checks, or at cancellation. */
  lemma WholeTurn(world: World, start: nat, log: seq<Event>, place: nat, m: Member, step: Step, i: nat)
    requires |log| >= 3 && Opened(log[..3], place, m, step)
    requires Checked(world, start, log, place, step.endpoint, i, step.healthy)
    requires i >= HEALTH_TRIES || step.healthy
    ensures Touched(world, start, log, place, m, step)
  {
    hide Sends, Recovers, ShowsSize, Answered, AsksHealth, KeptAsking, AnswerAt, CancelledAt;
    assert log[..3][0] == log[0] && log[..3][1] == log[1] && log[..3][2] == log[2];
  }

  method DefragMember(world: World, start: nat, place: nat, m: Member, named: Step)
    returns (step: Step, log: seq<Event>)
    requires m.clientURLs != [] && !named.healthy && named.after == 0
    ensures Touched(world, start, log, place, m, step)
    ensures step.member == named.member && step.leader == named.leader && step.skipped == named.skipped
  {
    hide SizeOf, ShowsSize;
    var ep := m.clientURLs[0];
    step := named.(endpoint := ep);

    var cmd := Command("10s", ep, EndpointStatus);
    log := [Event(place, cmd, AnswerAt(world, start, cmd))];
    step := step.(before := SizeOf(log[0].answer));

    cmd := Command("10m", ep, Defragment);
    log := log + [Event(place, cmd, AnswerAt(world, start + 1, cmd))];
    step := step.(err := log[1].answer.err);
    if step.err.Some? {
      return;
    }

    cmd := Command("10s", ep, EndpointStatus);
    log := log + [Event(place, cmd, AnswerAt(world, start + 2, cmd))];
    step := step.(after := SizeOf(log[2].answer));
    assert Opened(log, place, m, step) && Answered(world, start, log);
    hide Opened, Checked, Touched, Answered;

    ghost var before, i := step, 0;
    var healthy;
    log, healthy, i := CheckHealth(world, start, place, ep, log);
    step := step.(healthy := healthy);
    OpenedStays(log[..3], place, m, before, healthy);
    WholeTurn(world, start, log, place, m, step, i);
  }

  /** The health checks after the three commands of head. */
  method CheckHealth(world: World, start: nat, place: nat, ep: string, head: seq<Event>)
    returns (log: seq<Event>, healthy: bool, ghost rounds: nat)
    requires |head| == 3 && Answered(world, start, head)
    ensures |log| >= 3 && log[..3] == head && Checked(world, start, log, place, ep, rounds, healthy)
    ensures rounds >= HEALTH_TRIES || healthy
  {
    var cmd := Command("10s", ep, EndpointHealth);
    log, healthy := head, false;
    var i := 0;
    assert Checked(world, start, log, place, ep, i, false);
    hide Checked, Recovers;
    while i < HEALTH_TRIES && !healthy
      invariant i >= 0 && |log| >= 3 && log[..3] == head
      invariant Checked(world, start, log, place, ep, i, healthy)
      decreases HEALTH_TRIES - i
    {
      var e := Event(place, cmd, AnswerAt(world, start + |log|, cmd));
      ghost var before, at := log, i;
      log := log + [e];
      if e.answer.err.None? {
        for h := 0 to |e.answer.health|
          invariant healthy <==> true in e.answer.health[..h]
        {
          if e.answer.health[h] {
            healthy := true;
          }
        }
        assert e.answer.health[..|e.answer.health|] == e.answer.health;
      }
      RecoversOn(e);
      if !healthy && CancelledAt(world, start + |log|) {
        i := HEALTH_TRIES;
      }
      i := i + 1;
      OneMoreCheck(world, start, before, place, ep, at, e, i);
    }
    rounds := i;
  }

  lemma RecoversOn(e: Event)
    requires e.cmd.verb == EndpointHealth
    ensures Recovers(e) <==> e.answer.err.None? && true in e.answer.health
  {}

  lemma OpenedStays(head: seq<Event>, place: nat, m: Member, step: Step, healthy: bool)
    requires Opened(head, place, m, step)
    ensures Opened(head, place, m, step.(healthy := healthy))
  {
    hide Sends, ShowsSize;
  }

  // ----- the whole run

  ghost predicate Bad(step: Step)
  {
    step.skipped == "" && (step.err.Some? || !step.healthy)
  }

  /** Why the member at this place is not touched, "" when it is. */
  ghost function SkipReason(steps: seq<Step>, place: nat, m: Member): string
    requires place <= |steps|
  {
    if exists j :: 0 <= j < place && Bad(steps[j]) then "an earlier member is unhealthy"
    else if m.isLearner then "learner (not serving reads or writes yet)"
    else if m.clientURLs == [] then "no client URL"
    else ""
  }

  const FAILED := " failed to defragment; the remaining members were left alone"
  const UNHEALTHY := " is not healthy after its defrag; the remaining members were left alone"

  function AbortMessage(step: Step): (message: string)
    ensures message != ""
  {
    step.member + if step.err.Some? then FAILED else UNHEALTHY
  }

  function Flatten(logs: seq<seq<Event>>): seq<Event>
  {
    if logs == [] then [] else Flatten(logs[..|logs| - 1]) + logs[|logs| - 1]
  }

  ghost predicate StepHolds(world: World, ordered: seq<Member>, leaderID: string, steps: seq<Step>,
      logs: seq<seq<Event>>, i: nat)
    requires i < |steps| == |logs| <= |ordered|
  {
    var m, step := ordered[i], steps[i];
    && step.member == (if m.name == "" then m.id else m.name) && step.leader == (m.id == leaderID)
    && step.skipped == SkipReason(steps, i, m)
    && (step.skipped != "" ==>
      logs[i] == [] && step == Step(step.member, "", m.id == leaderID, 0, 0, None, false, step.skipped))
    && (step.skipped == "" ==> Touched(world, |Flatten(logs[..i])|, logs[i], i, m, step))
  }

  /** The abort notice names the one bad step, and is there when there is one. */
  ghost predicate AbortHolds(rep: Report)
  {
    && (rep.aborted == "" <==> forall i :: 0 <= i < |rep.steps| ==> !Bad(rep.steps[i]))
    && (forall i :: 0 <= i < |rep.steps| && Bad(rep.steps[i]) && rep.steps[i].err.Some? ==>
          rep.aborted == rep.steps[i].member + FAILED)
    && (forall i :: 0 <= i < |rep.steps| && Bad(rep.steps[i]) && rep.steps[i].err.None? ==>
          rep.aborted == rep.steps[i].member + UNHEALTHY)
  }

  /** One step per member in the run order, each as its turn demands, and the
      abort notice of the one bad member if there is one. */
  ghost predicate RunHolds(world: World, ordered: seq<Member>, leaderID: string, rep: Report, logs: seq<seq<Event>>)
  {
    && |rep.steps| == |logs| <= |ordered|
    && (forall i :: 0 <= i < |logs| ==> StepHolds(world, ordered, leaderID, rep.steps, logs, i))
    && AbortHolds(rep)
  }

  /** A step's claim looks at the run up to that step only. */
  lemma StepIsLocal(world: World, ordered: seq<Member>, leaderID: string, steps: seq<Step>, logs: seq<seq<Event>>,
      steps': seq<Step>, logs': seq<seq<Event>>, i: nat)
    requires i < |steps| == |logs| <= |ordered| && i < |steps'| == |logs'| <= |ordered|
    requires steps[..i + 1] == steps'[..i + 1] && logs[..i] == logs'[..i] && logs[i] == logs'[i]
    requires StepHolds(world, ordered, leaderID, steps, logs, i)
    ensures StepHolds(world, ordered, leaderID, steps', logs', i)
  {
    hide Touched;
    forall j | 0 <= j <= i
      ensures steps[j] == steps'[j]
    {
      assert steps[j] == steps[..i + 1][j] == steps'[..i + 1][j];
    }
    assert SkipReason(steps, i, ordered[i]) == SkipReason(steps', i, ordered[i]);
  }

  lemma AbortGrows(rep: Report, step: Step)
    requires AbortHolds(rep)
    requires forall i :: 0 <= i < |rep.steps| && Bad(rep.steps[i]) ==> !Bad(step)
    ensures AbortHolds(Report(rep.steps + [step], if Bad(step) then AbortMessage(step) else rep.aborted))
  {
    hide Bad;
    var steps' := rep.steps + [step];
    assert forall i :: 0 <= i < |rep.steps| ==> steps'[i] == rep.steps[i];
    assert steps'[|rep.steps|] == step;
  }

  lemma RunGrows(world: World, ordered: seq<Member>, leaderID: string, rep: Report, logs: seq<seq<Event>>,
      step: Step, log: seq<Event>, aborted: string)
    requires RunHolds(world, ordered, leaderID, rep, logs) && |logs| < |ordered|
    requires StepHolds(world, ordered, leaderID, rep.steps + [step], logs + [log], |logs|)
    requires aborted == if Bad(step) then AbortMessage(step) else rep.aborted
    ensures RunHolds(world, ordered, leaderID, Report(rep.steps + [step], aborted), logs + [log])
  {
    hide StepHolds, AbortHolds, Bad, AbortMessage;
    var n, steps', logs' := |logs|, rep.steps + [step], logs + [log];
    forall i | 0 <= i < n
      ensures StepHolds(world, ordered, leaderID, steps', logs', i)
    {
      assert steps'[..i + 1] == rep.steps[..i + 1] && logs'[..i] == logs[..i];
      StepIsLocal(world, ordered, leaderID, rep.steps, logs, steps', logs', i);
    }
    forall i | 0 <= i < n && Bad(rep.steps[i])
      ensures !Bad(step)
    {
      BlockedAfterBad(world, ordered, leaderID, steps', logs', i, n);
    }
    AbortGrows(rep, step);
  }

  lemma BlockedAfterBad(world: World, ordered: seq<Member>, leaderID: string, steps: seq<Step>,
      logs: seq<seq<Event>>, i: nat, j: nat)
    requires i < j < |steps| == |logs| <= |ordered|
    requires StepHolds(world, ordered, leaderID, steps, logs, j) && Bad(steps[i])
    ensures steps[j].skipped == EARLIER_UNHEALTHY && logs[j] == [] && !Bad(steps[j])
  {
    hide Touched;
  }

  /** The turn of one member; blocked once an earlier member ended badly. */
  ghost predicate TurnHolds(world: World, start: nat, place: nat, m: Member, leaderID: string, blocked: bool,
      step: Step, log: seq<Event>)
  {
    && step.member == (if m.name == "" then m.id else m.name) && step.leader == (m.id == leaderID)
    && step.skipped == (
      if blocked then EARLIER_UNHEALTHY
      else if m.isLearner then IS_LEARNER
      else if m.clientURLs == [] then NO_URL else "")
    && (step.skipped != "" ==>
      log == [] && step == Step(step.member, "", m.id == leaderID, 0, 0, None, false, step.skipped))
    && (step.skipped == "" ==> Touched(world, start, log, place, m, step))
  }

  method TakeTurn(world: World, start: nat, place: nat, m: Member, leaderID: string, blocked: bool)
    returns (step: Step, log: seq<Event>)
    ensures TurnHolds(world, start, place, m, leaderID, blocked, step, log)
  {
    step, log := Step(m.name, "", m.id == leaderID, 0, 0, None, false, ""), [];
    if step.member == "" {
      step := step.(member := m.id);
    }
    if blocked {
      step := step.(skipped := EARLIER_UNHEALTHY);
    } else if m.isLearner {
      step := step.(skipped := IS_LEARNER);
    } else if |m.clientURLs| == 0 {
      step := step.(skipped := NO_URL);
    } else {
      step, log := DefragMember(world, start, place, m, step);
    }
  }

  lemma TurnIsStep(world: World, ordered: seq<Member>, leaderID: string, rep: Report, logs: seq<seq<Event>>,
      step: Step, log: seq<Event>)
    requires RunHolds(world, ordered, leaderID, rep, logs) && |logs| < |ordered|
    requires TurnHolds(world, |Flatten(logs)|, |logs|, ordered[|logs|], leaderID, rep.aborted != "", step, log)
    ensures StepHolds(world, ordered, leaderID, rep.steps + [step], logs + [log], |logs|)
  {
    hide Touched;
    var n := |logs|;
    assert (logs + [log])[..n] == logs;
    assert forall j :: 0 <= j < n ==> (rep.steps + [step])[j] == rep.steps[j];
  }

  method DefragCluster(world: World, members: seq<Member>, leaderID: string)
    returns (rep: Report, logs: seq<seq<Event>>)
    ensures |rep.steps| == |RunOrder(members, leaderID)|
    ensures RunHolds(world, RunOrder(members, leaderID), leaderID, rep, logs)
  {
    hide Touched;
    var ordered := OrderMembers(members, leaderID);
    rep, logs := Report([], ""), [];
    var clock := 0;
    for i := 0 to |ordered|
      invariant |logs| == i && clock == |Flatten(logs)|
      invariant RunHolds(world, ordered, leaderID, rep, logs)
    {
      var step, log := TakeTurn(world, clock, i, ordered[i], leaderID, rep.aborted != "");
      TurnIsStep(world, ordered, leaderID, rep, logs, step, log);
      var aborted := rep.aborted;
      if step.skipped == "" && (step.err.Some? || !step.healthy) {
        aborted := AbortMessage(step);
      }
      RunGrows(world, ordered, leaderID, rep, logs, step, log, aborted);
      rep, logs, clock := Report(rep.steps + [step], aborted), logs + [log], clock + |log|;
      assert logs[..i] + [log] == logs;
    }
  }

  // ----- safety at every moment of every run

  /** m has been told to defragment and has not been seen healthy since. */
  ghost predicate Degraded(run: seq<Event>, m: nat)
  {
    exists a :: 0 <= a < |run| && DegradedSince(run, m, a)
  }

  ghost predicate DegradedSince(run: seq<Event>, m: nat, a: nat)
    requires a < |run|
  {
    run[a].member == m && run[a].cmd.verb == Defragment
      && forall b :: a < b < |run| && run[b].member == m ==> !Recovers(run[b])
  }

  /** Every touched member of the run so far ended well. */
  ghost predicate AllGood(rep: Report)
  {
    forall i :: 0 <= i < |rep.steps| ==> !Bad(rep.steps[i])
  }

  lemma TurnIsOwn(world: World, ordered: seq<Member>, leaderID: string, steps: seq<Step>, logs: seq<seq<Event>>, i: nat)
    requires i < |steps| == |logs| <= |ordered| && StepHolds(world, ordered, leaderID, steps, logs, i)
    ensures forall k :: 0 <= k < |logs[i]| ==> logs[i][k].member == i
  {
    hide Flatten, SkipReason;
  }

  lemma LogsAreTheirs(world: World, ordered: seq<Member>, leaderID: string, rep: Report, logs: seq<seq<Event>>)
    requires RunHolds(world, ordered, leaderID, rep, logs)
    ensures forall i :: 0 <= i < |logs| ==> forall k :: 0 <= k < |logs[i]| ==> logs[i][k].member == i
  {
    hide StepHolds, AbortHolds;
    forall i | 0 <= i < |logs|
      ensures forall k :: 0 <= k < |logs[i]| ==> logs[i][k].member == i
    {
      TurnIsOwn(world, ordered, leaderID, rep.steps, logs, i);
    }
  }

  lemma AbortPrefix(rep: Report, n: nat) returns (aborted: string)
    requires AbortHolds(rep) && n <= |rep.steps|
    ensures AbortHolds(Report(rep.steps[..n], aborted))
  {
    hide Bad, AbortMessage;
    var steps := rep.steps[..n];
    aborted := "";
    if i :| 0 <= i < n && Bad(steps[i]) {
      aborted := rep.aborted;
      assert steps[i] == rep.steps[i];
    }
  }

  /** The run up to its n-th member. */
  lemma RunPrefix(world: World, ordered: seq<Member>, leaderID: string, rep: Report, logs: seq<seq<Event>>, n: nat)
    returns (aborted: string)
    requires RunHolds(world, ordered, leaderID, rep, logs) && n <= |logs|
    ensures RunHolds(world, ordered, leaderID, Report(rep.steps[..n], aborted), logs[..n])
  {
    hide StepHolds, AbortHolds;
    var steps, logs' := rep.steps[..n], logs[..n];
    aborted := AbortPrefix(rep, n);
    forall i | 0 <= i < n
      ensures StepHolds(world, ordered, leaderID, steps, logs', i)
    {
      assert steps[..i + 1] == rep.steps[..i + 1] && logs'[..i] == logs[..i];
      StepIsLocal(world, ordered, leaderID, rep.steps, logs, steps, logs', i);
    }
  }

  /** Looking further into the run only ever heals a member. */
  lemma DegradedEarlier(run: seq<Event>, m: nat, a: nat, k: nat)
    requires a < k <= |run| && DegradedSince(run, m, a)
    ensures Degraded(run[..k], m)
  {
    assert DegradedSince(run[..k], m, a);
  }

  /** A turn that went well ends with the member seen healthy. */
  lemma GoodTurnEndsHealthy(world: World, start: nat, log: seq<Event>, place: nat, m: Member, step: Step)
    requires Touched(world, start, log, place, m, step) && step.err.None? && step.healthy
    ensures |log| >= 4 && Recovers(log[|log| - 1]) && log[|log| - 1].member == place
    ensures forall k :: 0 <= k < |log| && log[k].cmd.verb == Defragment ==> k == 1
  {}

  lemma LastTurn(logs: seq<seq<Event>>, k: nat)
    requires logs != [] && |Flatten(logs[..|logs| - 1])| <= k < |Flatten(logs)|
    ensures k - |Flatten(logs[..|logs| - 1])| < |logs[|logs| - 1]|
    ensures Flatten(logs)[k] == logs[|logs| - 1][k - |Flatten(logs[..|logs| - 1])|]
    ensures Flatten(logs)[|Flatten(logs)| - 1] == logs[|logs| - 1][|logs[|logs| - 1]| - 1]
    ensures |Flatten(logs)| == |Flatten(logs[..|logs| - 1])| + |logs[|logs| - 1]|
  {}

  /** A member still degraded after its own turn ended badly. */
  lemma DegradedInLastTurn(world: World, ordered: seq<Member>, leaderID: string, rep: Report, logs: seq<seq<Event>>,
      m: nat, a: nat)
    requires RunHolds(world, ordered, leaderID, rep, logs) && logs != []
    requires |Flatten(logs[..|logs| - 1])| <= a < |Flatten(logs)| && DegradedSince(Flatten(logs), m, a)
    ensures Bad(rep.steps[|logs| - 1]) && m == |logs| - 1
  {
    hide Touched, Flatten, AbortHolds;
    var n, k := |logs| - 1, a - |Flatten(logs[..|logs| - 1])|;
    var run, log, step := Flatten(logs), logs[n], rep.steps[n];
    LogsAreTheirs(world, ordered, leaderID, rep, logs);
    LastTurn(logs, a);
    assert StepHolds(world, ordered, leaderID, rep.steps, logs, n);
    if step.err.None? && step.healthy {
      GoodTurnEndsHealthy(world, a - k, log, n, ordered[n], step);
      assert false;
    }
  }

  /** Once every touched member ended well, none is degraded. */
  lemma {:induction false} GoodRunServes(world: World, ordered: seq<Member>, leaderID: string, rep: Report,
      logs: seq<seq<Event>>, m: nat)
    requires RunHolds(world, ordered, leaderID, rep, logs) && AllGood(rep)
    ensures !Degraded(Flatten(logs), m)
    decreases |logs|
  {
    if Degraded(Flatten(logs), m) {
      var n, run := |logs|, Flatten(logs);
      var a: nat :| a < |run| && DegradedSince(run, m, a);
      var init := logs[..n - 1];
      if a >= |Flatten(init)| {
        DegradedInLastTurn(world, ordered, leaderID, rep, logs, m, a);
      } else {
        var aborted := RunPrefix(world, ordered, leaderID, rep, logs, n - 1);
        DegradedEarlier(run, m, a, |Flatten(init)|);
        assert run[..|Flatten(init)|] == Flatten(init);
        GoodRunServes(world, ordered, leaderID, Report(rep.steps[..n - 1], aborted), init, m);
      }
      assert false;
    }
  }

  /** At every moment of the run at most one member is degraded, namely the
      one whose turn it is: whoever was touched before serves again. */
  lemma {:induction false} AtMostOneDegraded(world: World, ordered: seq<Member>, leaderID: string, rep: Report,
      logs: seq<seq<Event>>, t: nat, m: nat, m': nat)
    requires RunHolds(world, ordered, leaderID, rep, logs) && t <= |Flatten(logs)|
    requires Degraded(Flatten(logs)[..t], m) && Degraded(Flatten(logs)[..t], m')
    ensures m == m'
    decreases |logs|
  {
    hide StepHolds, AbortHolds, DegradedSince;
    var n := |logs|;
    var init := logs[..n - 1];
    var before := Flatten(init);
    var aborted := RunPrefix(world, ordered, leaderID, rep, logs, n - 1);
    var rep' := Report(rep.steps[..n - 1], aborted);
    if t <= |before| {
      assert Flatten(logs)[..t] == before[..t];
      AtMostOneDegraded(world, ordered, leaderID, rep', init, t, m, m');
    } else {
      var a: nat :| a < t && DegradedSince(Flatten(logs)[..t], m, a);
      var a': nat :| a' < t && DegradedSince(Flatten(logs)[..t], m', a');
      OnlyTheLast(world, ordered, leaderID, rep, logs, t, m, a);
      OnlyTheLast(world, ordered, leaderID, rep, logs, t, m', a');
    }
  }

  lemma TouchedAfterGood(world: World, ordered: seq<Member>, leaderID: string, steps: seq<Step>,
      logs: seq<seq<Event>>, i: nat)
    requires i < |steps| == |logs| <= |ordered| && StepHolds(world, ordered, leaderID, steps, logs, i)
    requires logs[i] != []
    ensures forall j :: 0 <= j < i ==> !Bad(steps[j])
  {
    hide Flatten, Touched, Bad;
  }

  /** Before the last member's turn, if it is touched, all were serving. */
  lemma ServingBeforeLastTurn(world: World, ordered: seq<Member>, leaderID: string, rep: Report,
      logs: seq<seq<Event>>, m: nat)
    requires RunHolds(world, ordered, leaderID, rep, logs) && logs != [] && logs[|logs| - 1] != []
    ensures !Degraded(Flatten(logs[..|logs| - 1]), m)
  {
    hide StepHolds, AbortHolds, Flatten, Degraded;
    var n := |logs| - 1;
    var aborted := RunPrefix(world, ordered, leaderID, rep, logs, n);
    TouchedAfterGood(world, ordered, leaderID, rep.steps, logs, n);
    GoodRunServes(world, ordered, leaderID, Report(rep.steps[..n], aborted), logs[..n], m);
  }

  lemma OnlyTheLast(world: World, ordered: seq<Member>, leaderID: string, rep: Report, logs: seq<seq<Event>>, t: nat,
      m: nat, a: nat)
    requires RunHolds(world, ordered, leaderID, rep, logs) && logs != []
    requires |Flatten(logs[..|logs| - 1])| < t <= |Flatten(logs)|
    requires a < t && DegradedSince(Flatten(logs)[..t], m, a)
    ensures a >= |Flatten(logs[..|logs| - 1])| && m == |logs| - 1
  {
    hide StepHolds, AbortHolds;
    var n, run := |logs| - 1, Flatten(logs)[..t];
    var before := Flatten(logs[..n]);
    if a < |before| {
      DegradedEarlier(run, m, a, |before|);
      assert run[..|before|] == before;
      ServingBeforeLastTurn(world, ordered, leaderID, rep, logs, m);
      assert false;
    }
    LogsAreTheirs(world, ordered, leaderID, rep, logs);
    assert run[a] == logs[n][a - |before|];
  }

  /** A defragmentation is only ever started while every member is serving. */
  lemma {:induction false} DefragStartsServing(world: World, ordered: seq<Member>, leaderID: string, rep: Report,
      logs: seq<seq<Event>>, t: nat, m: nat)
    requires RunHolds(world, ordered, leaderID, rep, logs) && t < |Flatten(logs)|
    requires Flatten(logs)[t].cmd.verb == Defragment
    ensures !Degraded(Flatten(logs)[..t], m)
    decreases |logs|
  {
    hide StepHolds;
    hide Touched;
    var n := |logs| - 1;
    var before := Flatten(logs[..n]);
    if t < |before| {
      var aborted := RunPrefix(world, ordered, leaderID, rep, logs, n);
      assert Flatten(logs)[..t] == before[..t] && Flatten(logs)[t] == before[t];
      DefragStartsServing(world, ordered, leaderID, Report(rep.steps[..n], aborted), logs[..n], t, m);
    } else {
      DefragIsSecond(world, ordered, leaderID, rep, logs, t);
      if Degraded(Flatten(logs)[..t], m) {
        var a: nat :| a < t && DegradedSince(Flatten(logs)[..t], m, a);
        OnlyTheLast(world, ordered, leaderID, rep, logs, t, m, a);
        assert false;
      }
    }
  }

  /** In its member's turn the defragmentation follows the size query. */
  lemma DefragIsSecond(world: World, ordered: seq<Member>, leaderID: string, rep: Report, logs: seq<seq<Event>>, t: nat)
    requires RunHolds(world, ordered, leaderID, rep, logs) && logs != []
    requires |Flatten(logs[..|logs| - 1])| <= t < |Flatten(logs)| && Flatten(logs)[t].cmd.verb == Defragment
    ensures t == |Flatten(logs[..|logs| - 1])| + 1 && Flatten(logs)[t - 1].cmd.verb == EndpointStatus
  {
    hide Touched, Flatten, AbortHolds;
    var n, k := |logs| - 1, |Flatten(logs[..|logs| - 1])|;
    LastTurn(logs, t);
    LastTurn(logs, k);
    assert StepHolds(world, ordered, leaderID, rep.steps, logs, n);
    DefragSecondInTurn(world, k, logs[n], n, ordered[n], rep.steps[n], t - k);
  }

  lemma DefragSecondInTurn(world: World, start: nat, log: seq<Event>, place: nat, m: Member, step: Step, k: nat)
    requires Touched(world, start, log, place, m, step) && k < |log| && log[k].cmd.verb == Defragment
    ensures k == 1 && log[0].cmd.verb == EndpointStatus
  {}

  /** At most one touched member ends badly, it is the last one touched, and
      the run is reported aborted exactly when there is one. */
  lemma BadIsLastTouched(world: World, ordered: seq<Member>, leaderID: string, rep: Report, logs: seq<seq<Event>>)
    requires RunHolds(world, ordered, leaderID, rep, logs)
    ensures forall i, j :: 0 <= i < |rep.steps| && i < j < |rep.steps| && Bad(rep.steps[i]) ==>
      rep.steps[j].skipped == EARLIER_UNHEALTHY && logs[j] == []
    ensures rep.aborted != "" <==> exists i :: 0 <= i < |rep.steps| && Bad(rep.steps[i])
  {
    forall i, j | 0 <= i < |rep.steps| && i < j < |rep.steps| && Bad(rep.steps[i])
      ensures rep.steps[j].skipped == EARLIER_UNHEALTHY && logs[j] == []
    {
      BlockedAfterBad(world, ordered, leaderID, rep.steps, logs, i, j);
    }
  }
}
