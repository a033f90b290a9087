/** The cache of repository indexes: when a repository is asked again, and
    what is kept when it does not answer. Times are on one monotone clock. */
module IndexCache {
  import opened BestVersion
  import opened Common

  const HOUR := 3600
  const OFFLINE_BACKOFF := 600

  datatype IndexState = FromNetwork | FromCache | Offline

  datatype RepoStatus = RepoStatus(state: IndexState, at: nat)

  /** What came of asking: the body of the index and whether it parses. */
  datatype Body = Unparsable | Parsed(index: Index)

  /** One repository's turn in a refresh: the clock at each reading, the
      answer of the network, and helm's cached copy if one can be read. */
  datatype Turn = Turn(repo: Repo, checked: nat, began: nat, ended: nat, stored: nat,
    fetched: Option<Body>, cached: Option<Body>)

  datatype State = State(indexes: map<string, Index>, fetched: map<string, nat>, status: map<string, RepoStatus>)

  const EMPTY := State(map[], map[], map[])

  // ----- one turn

  /** The index is missing or more than an hour old. */
  predicate Stale(st: State, t: Turn)
  {
    t.repo.name in st.fetched ==> t.checked > st.fetched[t.repo.name] + HOUR
  }

  /** The last attempt failed less than the backoff ago. */
  predicate BackedOff(st: State, t: Turn)
  {
    t.repo.name in st.status && st.status[t.repo.name].state != FromNetwork
      && t.began < st.status[t.repo.name].at + OFFLINE_BACKOFF
  }

  predicate Due(st: State, t: Turn)
  {
    Stale(st, t) && !BackedOff(st, t)
  }

  /** Where the index of an attempt comes from, and the index if there is one. */
  function Obtained(t: Turn, haveCacheDir: bool): (IndexState, Option<Index>)
  {
    match t.fetched
    case Some(Parsed(index)) => (FromNetwork, Some(index))
    case Some(Unparsable) => (Offline, None)
    case None =>
      if haveCacheDir && t.repo.fromHelm && t.cached.Some? then
        match t.cached.value
        case Parsed(index) => (FromCache, Some(index))
        case Unparsable => (Offline, None)
      else (Offline, None)
  }

  /** The network answered with an index. */
  ghost predicate Fetched(t: Turn)
  {
    t.fetched.Some? && t.fetched.value.Parsed?
  }

  /** helm's copy stands in for a network that did not answer at all. */
  ghost predicate FellBack(t: Turn, haveCacheDir: bool)
  {
    t.fetched.None? && haveCacheDir && t.repo.fromHelm && t.cached.Some? && t.cached.value.Parsed?
  }

  /** An index is the network's when it gave one, helm's copy when that stands
      in, and otherwise there is none. */
  lemma WhereFrom(t: Turn, haveCacheDir: bool)
    ensures Obtained(t, haveCacheDir).0 == FromNetwork <==> Fetched(t)
    ensures Obtained(t, haveCacheDir).0 == FromCache <==> FellBack(t, haveCacheDir)
    ensures Fetched(t) ==> Obtained(t, haveCacheDir).1 == Some(t.fetched.value.index)
    ensures FellBack(t, haveCacheDir) ==> Obtained(t, haveCacheDir).1 == Some(t.cached.value.index)
    ensures !Fetched(t) && !FellBack(t, haveCacheDir) ==> Obtained(t, haveCacheDir) == (Offline, None)
  {}

  function Attempt(st: State, t: Turn, haveCacheDir: bool): State
  {
    var (state, index) := Obtained(t, haveCacheDir);
    var name := t.repo.name;
    State(
      if index.Some? then st.indexes[name := index.value] else st.indexes,
      if index.Some? && state == FromNetwork then st.fetched[name := t.stored] else st.fetched,
      st.status[name := RepoStatus(state, t.ended)])
  }

  function AfterTurn(st: State, t: Turn, haveCacheDir: bool): State
  {
    if Due(st, t) then Attempt(st, t, haveCacheDir) else st
  }

  // ----- any run of refreshes

  function Run(turns: seq<Turn>, haveCacheDir: bool): State
  {
    if turns == [] then EMPTY
    else AfterTurn(Run(turns[..|turns| - 1], haveCacheDir), turns[|turns| - 1], haveCacheDir)
  }

  /** The attempts actually made in a run, in order. */
  function Attempts(turns: seq<Turn>, haveCacheDir: bool): seq<Turn>
  {
    if turns == [] then []
    else
      var init, t := turns[..|turns| - 1], turns[|turns| - 1];
      if Due(Run(init, haveCacheDir), t) then Attempts(init, haveCacheDir) + [t] else Attempts(init, haveCacheDir)
  }

  /** The clock never goes back, within a turn or from turn to turn. */
  ghost predicate Monotone(turns: seq<Turn>)
  {
    && (forall i :: 0 <= i < |turns| ==> turns[i].checked <= turns[i].began <= turns[i].ended <= turns[i].stored)
    && (forall i, j :: 0 <= i < j < |turns| ==> turns[i].stored <= turns[j].checked)
  }

  /** attempts[i] is the last on its repository. */
  ghost predicate IsLast(attempts: seq<Turn>, i: nat)
    requires i < |attempts|
  {
    forall j :: i < j < |attempts| ==> attempts[j].repo.name != attempts[i].repo.name
  }

  ghost predicate Remembered(st: State, t: Turn, haveCacheDir: bool)
  {
    var (state, _) := Obtained(t, haveCacheDir);
    && t.repo.name in st.status && st.status[t.repo.name] == RepoStatus(state, t.ended)
    && (state == FromNetwork ==> t.repo.name in st.fetched && st.fetched[t.repo.name] == t.stored)
  }

  /** The state remembers the last attempt on each repository. */
  ghost predicate Remembers(st: State, attempts: seq<Turn>, haveCacheDir: bool)
  {
    forall i :: 0 <= i < |attempts| && IsLast(attempts, i) ==> Remembered(st, attempts[i], haveCacheDir)
  }

  lemma {:induction false} RunRemembers(turns: seq<Turn>, haveCacheDir: bool)
    ensures Remembers(Run(turns, haveCacheDir), Attempts(turns, haveCacheDir), haveCacheDir)
  {
    hide Due, Attempt;
    if turns != [] {
      var init, t := turns[..|turns| - 1], turns[|turns| - 1];
      RunRemembers(init, haveCacheDir);
      AttemptRemembered(Run(init, haveCacheDir), Attempts(init, haveCacheDir), t, haveCacheDir);
    }
  }

  lemma OthersRemembered(st: State, other: Turn, t: Turn, haveCacheDir: bool)
    requires Remembered(st, other, haveCacheDir) && other.repo.name != t.repo.name
    ensures Remembered(Attempt(st, t, haveCacheDir), other, haveCacheDir)
  {}

  lemma AttemptRemembered(st: State, before: seq<Turn>, t: Turn, haveCacheDir: bool)
    requires Remembers(st, before, haveCacheDir)
    ensures Remembers(Attempt(st, t, haveCacheDir), before + [t], haveCacheDir)
  {
    var after := before + [t];
    assert Remembered(Attempt(st, t, haveCacheDir), t, haveCacheDir);
    hide Remembered, Attempt;
    forall i | 0 <= i < |after| && IsLast(after, i)
      ensures Remembered(Attempt(st, t, haveCacheDir), after[i], haveCacheDir)
    {
      if i < |before| {
        assert after[|before|] == t && after[i] == before[i];
        assert forall j :: i < j < |before| ==> before[j] == after[j];
        assert IsLast(before, i);
        OthersRemembered(st, before[i], t, haveCacheDir);
      }
    }
  }

  lemma {:induction false} AttemptsAreTurns(turns: seq<Turn>, haveCacheDir: bool)
    requires Monotone(turns)
    ensures forall t :: t in Attempts(turns, haveCacheDir) ==> t in turns && t.checked <= t.began <= t.ended <= t.stored
  {
    if turns != [] {
      AttemptsAreTurns(turns[..|turns| - 1], haveCacheDir);
    }
  }

  /** The last attempt on a repository among some attempts. */
  lemma LastOn(attempts: seq<Turn>, i: nat) returns (k: nat)
    requires i < |attempts|
    ensures i <= k < |attempts| && attempts[k].repo.name == attempts[i].repo.name && IsLast(attempts, k)
  {
    k := |attempts| - 1;
    while attempts[k].repo.name != attempts[i].repo.name
      invariant i <= k < |attempts|
      invariant forall j :: k < j < |attempts| ==> attempts[j].repo.name != attempts[i].repo.name
      decreases k
    {
      k := k - 1;
    }
  }

  /** b starts at least the backoff after the end of a, and more than an hour
      after a stored an index from the network. */
  ghost predicate Apart(a: Turn, b: Turn)
  {
    && b.began >= a.ended + 600
    && (Fetched(a) ==> b.began > a.stored + 3600)
  }

  lemma DueIsApart(turns: seq<Turn>, t: Turn, haveCacheDir: bool, i: nat)
    requires Monotone(turns) && t.checked <= t.began && Due(Run(turns, haveCacheDir), t)
    requires i < |Attempts(turns, haveCacheDir)| && IsLast(Attempts(turns, haveCacheDir), i)
    requires Attempts(turns, haveCacheDir)[i].repo.name == t.repo.name
    ensures Apart(Attempts(turns, haveCacheDir)[i], t)
  {
    hide Run, Attempts;
    var last := Attempts(turns, haveCacheDir)[i];
    RunRemembers(turns, haveCacheDir);
    AttemptsAreTurns(turns, haveCacheDir);
    assert Remembered(Run(turns, haveCacheDir), last, haveCacheDir);
    assert last in Attempts(turns, haveCacheDir);
  }

  ghost predicate FarApart(attempts: seq<Turn>)
  {
    forall i, j :: 0 <= i < j < |attempts| && attempts[i].repo.name == attempts[j].repo.name ==>
      Apart(attempts[i], attempts[j])
  }

  lemma OneMoreApart(turns: seq<Turn>, t: Turn, haveCacheDir: bool)
    requires Monotone(turns) && t.checked <= t.began && Due(Run(turns, haveCacheDir), t)
    requires FarApart(Attempts(turns, haveCacheDir))
    ensures FarApart(Attempts(turns, haveCacheDir) + [t])
  {
    hide Run, Attempts, Due, Obtained;
    var before := Attempts(turns, haveCacheDir);
    AttemptsAreTurns(turns, haveCacheDir);
    forall i | 0 <= i < |before| && before[i].repo.name == t.repo.name
      ensures Apart(before[i], t)
    {
      var k := LastOn(before, i);
      DueIsApart(turns, t, haveCacheDir, k);
      assert before[k] in before;
    }
  }

  /** Two attempts on one repository are never closer than the backoff, from
      the end of the first to the start of the second, and an index from the
      network is left alone for more than an hour. */
  lemma {:induction false} AttemptsAreFarApart(turns: seq<Turn>, haveCacheDir: bool)
    requires Monotone(turns)
    ensures FarApart(Attempts(turns, haveCacheDir))
  {
    hide Due, Apart;
    if turns != [] {
      var init, t := turns[..|turns| - 1], turns[|turns| - 1];
      AttemptsAreFarApart(init, haveCacheDir);
      if Due(Run(init, haveCacheDir), t) {
        OneMoreApart(init, t, haveCacheDir);
      }
    }
  }

  // ----- and an attempt is made as soon as it may be

  /** The last attempt on a repository, if there was one. */
  ghost function LastAttempt(attempts: seq<Turn>, repo: string): Option<Turn>
  {
    if attempts == [] then None
    else
      var t := attempts[|attempts| - 1];
      if t.repo.name == repo then Some(t) else LastAttempt(attempts[..|attempts| - 1], repo)
  }

  /** The last attempt that fetched its index from the network. */
  ghost function LastFetch(attempts: seq<Turn>, repo: string): Option<Turn>
  {
    if attempts == [] then None
    else
      var t := attempts[|attempts| - 1];
      if t.repo.name == repo && Fetched(t) then Some(t) else LastFetch(attempts[..|attempts| - 1], repo)
  }

  /** What the state knows of a repository is what its last attempts came to. */
  ghost predicate Knows(st: State, attempts: seq<Turn>, repo: string, haveCacheDir: bool)
  {
    && (match LastAttempt(attempts, repo)
        case None => repo !in st.status
        case Some(a) => repo in st.status && st.status[repo] == RepoStatus(Obtained(a, haveCacheDir).0, a.ended))
    && (match LastFetch(attempts, repo)
        case None => repo !in st.fetched
        case Some(a) => repo in st.fetched && st.fetched[repo] == a.stored)
  }

  lemma AttemptKnown(st: State, before: seq<Turn>, t: Turn, repo: string, haveCacheDir: bool)
    requires Knows(st, before, repo, haveCacheDir)
    ensures Knows(Attempt(st, t, haveCacheDir), before + [t], repo, haveCacheDir)
  {
    assert (before + [t])[..|before|] == before;
    WhereFrom(t, haveCacheDir);
    hide Obtained, LastAttempt, LastFetch;
    LastGrows(before, t, repo);
    hide Fetched, FellBack;
  }

  lemma LastGrows(before: seq<Turn>, t: Turn, repo: string)
    ensures LastAttempt(before + [t], repo) == if t.repo.name == repo then Some(t) else LastAttempt(before, repo)
    ensures LastFetch(before + [t], repo) ==
      if t.repo.name == repo && Fetched(t) then Some(t) else LastFetch(before, repo)
  {
    assert (before + [t])[..|before|] == before;
  }

  lemma {:induction false} RunKnows(turns: seq<Turn>, repo: string, haveCacheDir: bool)
    ensures Knows(Run(turns, haveCacheDir), Attempts(turns, haveCacheDir), repo, haveCacheDir)
  {
    hide Due, Attempt;
    if turns != [] {
      var init, t := turns[..|turns| - 1], turns[|turns| - 1];
      RunKnows(init, repo, haveCacheDir);
      AttemptKnown(Run(init, haveCacheDir), Attempts(init, haveCacheDir), t, repo, haveCacheDir);
    }
  }

  lemma {:induction false} LastAttemptIsLast(attempts: seq<Turn>, repo: string)
    ensures match LastAttempt(attempts, repo)
      case None => forall i :: 0 <= i < |attempts| ==> attempts[i].repo.name != repo
      case Some(a) => exists i: nat :: i < |attempts| && attempts[i] == a && a.repo.name == repo && IsLast(attempts, i)
  {
    if attempts != [] {
      var n := |attempts| - 1;
      var init := attempts[..n];
      LastAttemptIsLast(init, repo);
      if attempts[n].repo.name == repo {
        assert IsLast(attempts, n);
      } else if LastAttempt(init, repo).Some? {
        var i: nat :|
          i < |init| && init[i] == LastAttempt(init, repo).value && init[i].repo.name == repo && IsLast(init, i);
        assert attempts[i] == init[i] && IsLast(attempts, i);
      }
    }
  }

  /** The attempts, too, are in the order of time. */
  lemma {:induction false} AttemptsInOrder(turns: seq<Turn>, haveCacheDir: bool)
    requires Monotone(turns)
    ensures Monotone(Attempts(turns, haveCacheDir))
  {
    hide Due;
    if turns != [] {
      var init, t := turns[..|turns| - 1], turns[|turns| - 1];
      AttemptsInOrder(init, haveCacheDir);
      AttemptsAreTurns(init, haveCacheDir);
      var before := Attempts(init, haveCacheDir);
      forall i | 0 <= i < |before|
        ensures before[i].stored <= t.checked
      {
        assert before[i] in before;
        var k :| 0 <= k < |init| && init[k] == before[i];
        assert turns[k] == init[k];
      }
    }
  }

  lemma {:induction false} LastFetchIsLatest(attempts: seq<Turn>, repo: string)
    requires Monotone(attempts)
    ensures match LastFetch(attempts, repo)
      case None => forall i :: 0 <= i < |attempts| && attempts[i].repo.name == repo ==> !Fetched(attempts[i])
      case Some(a) =>
        && a in attempts && a.repo.name == repo && Fetched(a)
        && forall i :: 0 <= i < |attempts| && attempts[i].repo.name == repo && Fetched(attempts[i]) ==>
          attempts[i].stored <= a.stored
  {
    hide Fetched;
    if attempts != [] {
      var n := |attempts| - 1;
      LastFetchIsLatest(attempts[..n], repo);
      assert forall i :: 0 <= i < n ==> attempts[i].stored <= attempts[n].checked;
    }
  }

  /** t may be an attempt: more than an hour has passed since any index fetched
      from the network, and ten minutes since the last attempt if it fetched
      none. */
  ghost predicate MayAskAgain(attempts: seq<Turn>, t: Turn)
  {
    && (forall a :: a in attempts && a.repo.name == t.repo.name && Fetched(a) ==> t.checked > a.stored + 3600)
    && forall i :: 0 <= i < |attempts| && IsLast(attempts, i) ==>
      attempts[i].repo.name == t.repo.name && !Fetched(attempts[i]) ==> t.began >= attempts[i].ended + 600
  }

  /** In any run the next turn is an attempt exactly when it may be one: no
      repository is asked too soon, and none is given up. */
  lemma AsksAgainIff(turns: seq<Turn>, t: Turn, haveCacheDir: bool)
    requires Monotone(turns + [t])
    ensures Attempts(turns + [t], haveCacheDir) ==
      if MayAskAgain(Attempts(turns, haveCacheDir), t) then Attempts(turns, haveCacheDir) + [t]
      else Attempts(turns, haveCacheDir)
  {
    var st, attempts, repo := Run(turns, haveCacheDir), Attempts(turns, haveCacheDir), t.repo.name;
    assert (turns + [t])[..|turns|] == turns;
    assert Monotone(turns) by { PrefixMonotone(turns, t); }
    RunKnows(turns, repo, haveCacheDir);
    AttemptsInOrder(turns, haveCacheDir);
    DueIff(st, attempts, t, haveCacheDir);
  }

  lemma PrefixMonotone(turns: seq<Turn>, t: Turn)
    requires Monotone(turns + [t])
    ensures Monotone(turns)
  {
    assert forall i :: 0 <= i < |turns| ==> (turns + [t])[i] == turns[i];
  }

  lemma StaleIff(st: State, attempts: seq<Turn>, t: Turn, haveCacheDir: bool)
    requires Knows(st, attempts, t.repo.name, haveCacheDir) && Monotone(attempts)
    ensures Stale(st, t) <==>
      forall a :: a in attempts && a.repo.name == t.repo.name && Fetched(a) ==> t.checked > a.stored + 3600
  {
    LastFetchIsLatest(attempts, t.repo.name);
    hide Obtained, Fetched, LastAttempt, LastFetch, Monotone;
  }

  lemma BackedOffIff(st: State, attempts: seq<Turn>, t: Turn, haveCacheDir: bool)
    requires Knows(st, attempts, t.repo.name, haveCacheDir)
    ensures BackedOff(st, t) <==>
      exists i :: 0 <= i < |attempts| && IsLast(attempts, i) && attempts[i].repo.name == t.repo.name
        && !Fetched(attempts[i]) && t.began < attempts[i].ended + 600
  {
    LastAttemptIsLast(attempts, t.repo.name);
    match LastAttempt(attempts, t.repo.name)
    case None =>
    case Some(a) =>
      WhereFrom(a, haveCacheDir);
      hide Obtained, Fetched, LastAttempt, LastFetch;
      var i: nat :| i < |attempts| && attempts[i] == a && a.repo.name == t.repo.name && IsLast(attempts, i);
      forall j | 0 <= j < |attempts| && IsLast(attempts, j) && attempts[j].repo.name == t.repo.name
        ensures j == i
      {}
  }

  lemma DueIff(st: State, attempts: seq<Turn>, t: Turn, haveCacheDir: bool)
    requires Knows(st, attempts, t.repo.name, haveCacheDir) && Monotone(attempts)
    ensures Due(st, t) <==> MayAskAgain(attempts, t)
  {
    hide Knows, Fetched, Stale, BackedOff, IsLast, Monotone;
    StaleIff(st, attempts, t, haveCacheDir);
    BackedOffIff(st, attempts, t, haveCacheDir);
  }

  /** The index last obtained for a repository, from either source. */
  function LastObtained(attempts: seq<Turn>, repo: string, haveCacheDir: bool): Option<Index>
  {
    if attempts == [] then None
    else
      var t := attempts[|attempts| - 1];
      var (_, index) := Obtained(t, haveCacheDir);
      if t.repo.name == repo && index.Some? then index
      else LastObtained(attempts[..|attempts| - 1], repo, haveCacheDir)
  }

  /** The index in use is always the one last obtained: no failure loses it. */
  lemma {:induction false} IndexIsLastObtained(turns: seq<Turn>, repo: string, haveCacheDir: bool)
    ensures var indexes := Run(turns, haveCacheDir).indexes;
      LastObtained(Attempts(turns, haveCacheDir), repo, haveCacheDir) ==
        if repo in indexes then Some(indexes[repo]) else None
  {
    if turns != [] {
      var init, t := turns[..|turns| - 1], turns[|turns| - 1];
      IndexIsLastObtained(init, repo, haveCacheDir);
      if Due(Run(init, haveCacheDir), t) {
        assert (Attempts(init, haveCacheDir) + [t])[..|Attempts(init, haveCacheDir)|] == Attempts(init, haveCacheDir);
      }
    }
  }

  /** attempts[k] is the attempt the index in use came from. */
  ghost predicate InUse(attempts: seq<Turn>, repo: string, haveCacheDir: bool, k: nat)
  {
    && k < |attempts| && attempts[k].repo.name == repo && Obtained(attempts[k], haveCacheDir).1.Some?
    && forall j :: k < j < |attempts| && attempts[j].repo.name == repo ==> Obtained(attempts[j], haveCacheDir).1.None?
  }

  lemma {:induction false} LastObtainedInUse(attempts: seq<Turn>, repo: string, haveCacheDir: bool)
    ensures forall k: nat :: InUse(attempts, repo, haveCacheDir, k) ==>
      LastObtained(attempts, repo, haveCacheDir) == Obtained(attempts[k], haveCacheDir).1
    ensures LastObtained(attempts, repo, haveCacheDir).Some? ==> exists k: nat :: InUse(attempts, repo, haveCacheDir, k)
  {
    hide Obtained;
    if attempts != [] {
      var n := |attempts| - 1;
      var init := attempts[..n];
      LastObtainedInUse(init, repo, haveCacheDir);
      if attempts[n].repo.name == repo && Obtained(attempts[n], haveCacheDir).1.Some? {
        assert InUse(attempts, repo, haveCacheDir, n);
      } else {
        forall k: nat
          ensures InUse(attempts, repo, haveCacheDir, k) <==> InUse(init, repo, haveCacheDir, k)
        {
          UselessAttempt(attempts, repo, haveCacheDir, k);
        }
      }
    }
  }

  lemma UselessAttempt(attempts: seq<Turn>, repo: string, haveCacheDir: bool, k: nat)
    requires attempts != []
    requires attempts[|attempts| - 1].repo.name == repo ==> Obtained(attempts[|attempts| - 1], haveCacheDir).1.None?
    ensures InUse(attempts, repo, haveCacheDir, k) <==> InUse(attempts[..|attempts| - 1], repo, haveCacheDir, k)
  {
    hide Obtained;
    var init := attempts[..|attempts| - 1];
    assert forall j :: 0 <= j < |init| ==> init[j] == attempts[j];
  }

  /** attempts[k] fetched the repository's index from the network. */
  predicate IsFetch(attempts: seq<Turn>, repo: string, haveCacheDir: bool, k: nat)
  {
    k < |attempts| && attempts[k].repo.name == repo && Obtained(attempts[k], haveCacheDir).0 == FromNetwork
  }

  /** And no later attempt fell back to helm's copy. */
  ghost predicate FetchedSinceCached(attempts: seq<Turn>, repo: string, haveCacheDir: bool, k: nat)
  {
    && IsFetch(attempts, repo, haveCacheDir, k)
    && forall j :: k < j < |attempts| && attempts[j].repo.name == repo ==>
      Obtained(attempts[j], haveCacheDir).0 != FromCache
  }

  lemma {:induction false} LastFetchedInUse(attempts: seq<Turn>, repo: string, haveCacheDir: bool, k: nat)
    returns (m: nat)
    requires FetchedSinceCached(attempts, repo, haveCacheDir, k)
    ensures FetchedSinceCached(attempts, repo, haveCacheDir, m) && InUse(attempts, repo, haveCacheDir, m)
    decreases |attempts| - k
  {
    if j: nat :| k < j && IsFetch(attempts, repo, haveCacheDir, j) {
      m := LastFetchedInUse(attempts, repo, haveCacheDir, j);
    } else {
      m := k;
      forall j | k < j < |attempts| && attempts[j].repo.name == repo
        ensures Obtained(attempts[j], haveCacheDir).1.None?
      {
        assert !IsFetch(attempts, repo, haveCacheDir, j);
      }
    }
  }

  /** The index in use is one from the network exactly when it was fetched once
      and helm's copy has not been fallen back to since. */
  lemma NetworkCopyInUseIff(turns: seq<Turn>, repo: string, haveCacheDir: bool)
    ensures var attempts := Attempts(turns, haveCacheDir);
      (exists k: nat :: InUse(attempts, repo, haveCacheDir, k) && Obtained(attempts[k], haveCacheDir).0 == FromNetwork)
      <==> exists k: nat :: FetchedSinceCached(attempts, repo, haveCacheDir, k)
    ensures var attempts, indexes := Attempts(turns, haveCacheDir), Run(turns, haveCacheDir).indexes;
      forall k: nat :: InUse(attempts, repo, haveCacheDir, k) ==>
        repo in indexes && Some(indexes[repo]) == Obtained(attempts[k], haveCacheDir).1
  {
    var attempts := Attempts(turns, haveCacheDir);
    LastObtainedInUse(attempts, repo, haveCacheDir);
    IndexIsLastObtained(turns, repo, haveCacheDir);
    if k: nat :| InUse(attempts, repo, haveCacheDir, k) && Obtained(attempts[k], haveCacheDir).0 == FromNetwork {
      assert FetchedSinceCached(attempts, repo, haveCacheDir, k);
    }
    if k: nat :| FetchedSinceCached(attempts, repo, haveCacheDir, k) {
      var m := LastFetchedInUse(attempts, repo, haveCacheDir, k);
    }
  }

  function AtOnce(repo: Repo, at: nat, fetched: Option<Body>, cached: Option<Body>): Turn
  {
    Turn(repo, at, at, at, at, fetched, cached)
  }

  lemma FetchedAtOnce(repo: Repo, index: Index)
    ensures Run([AtOnce(repo, 1, Some(Parsed(index)), None)], true) ==
      State(map[repo.name := index], map[repo.name := 1], map[repo.name := RepoStatus(FromNetwork, 1)])
  {
    RunGrows([], AtOnce(repo, 1, Some(Parsed(index)), None), true);
    assert [] + [AtOnce(repo, 1, Some(Parsed(index)), None)] == [AtOnce(repo, 1, Some(Parsed(index)), None)];
  }

  /** An hour after a fetch, a failed one puts helm's copy, older or not, in
      the place of the index from the network. */
  lemma CachedCopyReplaces(repo: Repo, fetched: Index, cached: Index)
    requires repo.fromHelm
    ensures var first := AtOnce(repo, 1, Some(Parsed(fetched)), None);
      var second := AtOnce(repo, HOUR + 2, None, Some(Parsed(cached)));
      && Monotone([first, second])
      && Run([first], true).indexes == map[repo.name := fetched]
      && Run([first, second], true).indexes == map[repo.name := cached]
  {
    hide Run;
    var first := AtOnce(repo, 1, Some(Parsed(fetched)), None);
    var second := AtOnce(repo, HOUR + 2, None, Some(Parsed(cached)));
    FetchedAtOnce(repo, fetched);
    RunGrows([first], second, true);
    assert [first] + [second] == [first, second];
  }

  /** A fetch time is only ever recorded together with an index. */
  lemma {:induction false} FetchedHasIndex(turns: seq<Turn>, repo: string, haveCacheDir: bool)
    ensures repo in Run(turns, haveCacheDir).fetched ==> repo in Run(turns, haveCacheDir).indexes
  {
    if turns != [] {
      FetchedHasIndex(turns[..|turns| - 1], repo, haveCacheDir);
    }
  }

  /** An index once there stays there. */
  lemma {:induction false} IndexIsKept(turns: seq<Turn>, n: nat, repo: string, haveCacheDir: bool)
    requires n <= |turns| && repo in Run(turns[..n], haveCacheDir).indexes
    ensures repo in Run(turns, haveCacheDir).indexes
  {
    if n < |turns| {
      var init := turns[..|turns| - 1];
      assert init[..n] == turns[..n];
      IndexIsKept(init, n, repo, haveCacheDir);
    } else {
      assert turns[..n] == turns;
    }
  }

  lemma RunGrows(turns: seq<Turn>, t: Turn, haveCacheDir: bool)
    ensures Run(turns + [t], haveCacheDir) == AfterTurn(Run(turns, haveCacheDir), t, haveCacheDir)
  {
    assert (turns + [t])[..|turns|] == turns;
  }

  // ----- the checker

  class Checker {
    const haveCacheDir: bool
    var indexes: map<string, Index>
    var fetched: map<string, nat>
    var status: map<string, RepoStatus>
    /** every turn so far */
    ghost var turns: seq<Turn>

    ghost predicate Valid()
      reads this
    {
      State(indexes, fetched, status) == Run(turns, haveCacheDir)
    }

    constructor (haveCacheDir: bool)
      ensures Valid() && turns == [] && this.haveCacheDir == haveCacheDir
    {
      this.haveCacheDir := haveCacheDir;
      indexes, fetched, status := map[], map[], map[];
      turns := [];
    }

    /** One repository's turn: asked when due, kept as it is otherwise. */
    method TakeTurn(t: Turn)
      requires Valid()
      modifies this
      ensures Valid() && turns == old(turns) + [t]
    {
      hide Run;
      var name := t.repo.name;
      ghost var before := State(indexes, fetched, status);
      turns := turns + [t];
      assert Run(turns, haveCacheDir) == AfterTurn(before, t, haveCacheDir) by {
        RunGrows(old(turns), t, haveCacheDir);
      }
      var stale := name !in fetched || t.checked > fetched[name] + HOUR;
      if !stale { return; }
      if name in status && (status[name].state == Offline || status[name].state == FromCache) {
        if t.began < status[name].at + OFFLINE_BACKOFF { return; }
      }
      var state, body := FromNetwork, t.fetched;
      if body.None? {
        state := Offline;
        if haveCacheDir && t.repo.fromHelm && t.cached.Some? {
          body, state := t.cached, FromCache;
        }
      }
      var index: Option<Index> := None;
      if body.Some? {
        match body.value {
          case Parsed(m) => index := Some(m);
          case Unparsable => state := Offline;
        }
      }
      status := status[name := RepoStatus(state, t.ended)];
      if index.Some? {
        indexes := indexes[name := index.value];
        if state == FromNetwork { fetched := fetched[name := t.stored]; }
      }
    }

    /** One refresh over all repositories, each taking its turn. */
    method RefreshIndexes(round: seq<Turn>)
      requires Valid()
      modifies this
      ensures Valid() && turns == old(turns) + round
    {
      for i := 0 to |round|
        invariant Valid() && turns == old(turns) + round[..i]
      {
        TakeTurn(round[i]);
        assert round[..i + 1] == round[..i] + [round[i]];
      }
      assert round[..|round|] == round;
    }
  }
}
