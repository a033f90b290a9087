/** Which chart version is offered as an update, and from which repository. */
module BestVersion {
  import opened Strings
  import opened Versions
  import opened Sorting

  datatype IndexEntry = IndexEntry(version: string, home: string, sources: seq<string>)

  /** chart name -> listed versions */
  type Index = map<string, seq<IndexEntry>>

  datatype Repo = Repo(name: string, url: string, fromHelm: bool)

  datatype Release = Release(chart: string, repo: string, home: string, sources: seq<string>)

  datatype Latest = Latest(version: string, source: string, repoURL: string, alias: string, err: string)

  datatype Candidate = Candidate(repo: Repo, best: string, origin: bool)

  const NO_LATEST := Latest("", "", "", "", "")

  // ----- origins

  function Norm(s: string): string
  {
    var bare := TrimPrefix(TrimPrefix(Lower(TrimSpace(s)), "https://"), "http://");
    TrimSuffix(TrimSuffix(bare, "/"), ".git")
  }

  predicate SameOrigin(e: IndexEntry, r: Release)
  {
    || (r.home != "" && e.home != "" && Norm(r.home) == Norm(e.home))
    || exists a, b | a in r.sources && b in e.sources :: a != "" && Norm(a) == Norm(b)
  }

  /** The recorded install repository, when it is an http(s) URL. */
  function RepoURL(r: string): string
  {
    var u := TrimSpace(r);
    if HasPrefix(u, "http://") || HasPrefix(u, "https://") then TrimSuffix(u, "/") else ""
  }

  // ----- one repository

  predicate Stable(e: IndexEntry) { !IsPrerelease(e.version) }

  function Listed(idx: Index, chart: string): seq<IndexEntry>
  {
    if chart in idx then idx[chart] else []
  }

  predicate HasStable(entries: seq<IndexEntry>)
  {
    exists e | e in entries :: Stable(e)
  }

  /** version is listed, stable, and no stable entry is newer. */
  ghost predicate IsBest(entries: seq<IndexEntry>, version: string)
  {
    && (exists e :: e in entries && Stable(e) && e.version == version)
    && forall e :: e in entries && Stable(e) ==> CompareVersions(e.version, version) <= 0
  }

  /** entries[n] is the first stable entry no stable one is newer than. */
  ghost predicate FirstBest(entries: seq<IndexEntry>, n: nat)
  {
    && n < |entries| && Stable(entries[n])
    && (forall m :: 0 <= m < n && Stable(entries[m]) ==> CompareVersions(entries[m].version, entries[n].version) < 0)
    && forall m :: n <= m < |entries| && Stable(entries[m]) ==>
      CompareVersions(entries[m].version, entries[n].version) <= 0
  }

  /** version is the one listed first of the newest. */
  ghost predicate IsFirstBest(entries: seq<IndexEntry>, version: string)
  {
    exists n: nat :: FirstBest(entries, n) && entries[n].version == version
  }

  lemma FirstBestIsBest(entries: seq<IndexEntry>, version: string)
    requires IsFirstBest(entries, version)
    ensures IsBest(entries, version)
  {
    hide CompareVersions;
    var n: nat :| FirstBest(entries, n) && entries[n].version == version;
    assert entries[n] in entries;
  }

  /** One more entry: it becomes the best if it is stable and newer. */
  lemma FirstBestGrows(init: seq<IndexEntry>, e: IndexEntry, n: nat)
    requires FirstBest(init, n) && Stable(e)
    ensures CompareVersions(e.version, init[n].version) > 0 ==> FirstBest(init + [e], |init|)
    ensures CompareVersions(e.version, init[n].version) <= 0 ==> FirstBest(init + [e], n)
  {
    hide CompareVersions, IsPrerelease;
    var all := init + [e];
    var was := init[n].version;
    CompareIsATotalPreorder(e.version, e.version, e.version);
    CompareIsATotalPreorder(e.version, was, e.version);
    forall m | 0 <= m < |init| && Stable(init[m]) && CompareVersions(e.version, was) > 0
      ensures CompareVersions(init[m].version, e.version) < 0
    {
      CompareIsATotalPreorder(e.version, init[m].version, was);
      CompareIsATotalPreorder(init[m].version, e.version, was);
    }
    assert forall m :: 0 <= m < |init| ==> all[m] == init[m];
  }

  lemma FirstStable(init: seq<IndexEntry>, e: IndexEntry)
    requires Stable(e) && !HasStable(init)
    ensures FirstBest(init + [e], |init|)
  {
    hide CompareVersions, IsPrerelease;
    CompareIsATotalPreorder(e.version, e.version, e.version);
    assert forall m :: 0 <= m < |init| ==> (init + [e])[m] == init[m] && init[m] in init;
  }

  lemma UnstableSkipped(init: seq<IndexEntry>, e: IndexEntry, n: nat)
    requires FirstBest(init, n) && !Stable(e)
    ensures FirstBest(init + [e], n)
  {
    hide CompareVersions, IsPrerelease;
    assert forall m :: 0 <= m < |init| ==> (init + [e])[m] == init[m];
  }

  predicate OriginMatches(entries: seq<IndexEntry>, r: Release)
  {
    exists e | e in entries :: Stable(e) && SameOrigin(e, r)
  }

  method BestIn(repo: Repo, idx: Index, r: Release) returns (cand: Candidate, found: bool)
    ensures cand.repo == repo
    ensures found <==> HasStable(Listed(idx, r.chart))
    ensures found ==> IsFirstBest(Listed(idx, r.chart), cand.best) && IsBest(Listed(idx, r.chart), cand.best)
    ensures cand.origin <==> OriginMatches(Listed(idx, r.chart), r)
  {
    hide CompareVersions, IsPrerelease, SameOrigin, FirstBest;
    cand, found := Candidate(repo, "", false), false;
    var entries := Listed(idx, r.chart);
    ghost var n: nat := 0;
    for k := 0 to |entries|
      invariant cand.repo == repo
      invariant found <==> HasStable(entries[..k])
      invariant found ==> FirstBest(entries[..k], n) && n < k && entries[n].version == cand.best
      invariant cand.origin <==> OriginMatches(entries[..k], r)
    {
      var e := entries[k];
      assert entries[..k + 1] == entries[..k] + [e] && e in entries[..k + 1];
      assert forall e' :: e' in entries[..k + 1] <==> e' in entries[..k] || e' == e;
      if IsPrerelease(e.version) {
        if found { UnstableSkipped(entries[..k], e, n); }
        continue;
      }
      if SameOrigin(e, r) { cand := cand.(origin := true); }
      if found {
        FirstBestGrows(entries[..k], e, n);
      } else {
        FirstStable(entries[..k], e);
      }
      if !found || CompareVersions(e.version, cand.best) > 0 {
        cand, n := cand.(best := e.version), k;
        found := true;
      }
    }
    assert entries[..|entries|] == entries;
    if found { FirstBestIsBest(entries, cand.best); }
  }

  /** The listing order decides only between versions that compare equal. */
  lemma BestIgnoresOrder(entries: seq<IndexEntry>, entries': seq<IndexEntry>, v: string, v': string)
    requires multiset(entries) == multiset(entries')
    requires IsBest(entries, v) && IsBest(entries', v')
    ensures CompareVersions(v, v') == 0
  {
    var e :| e in entries && Stable(e) && e.version == v;
    var e' :| e' in entries' && Stable(e') && e'.version == v';
    InMultiset(entries, e);
    InMultiset(entries', e);
    InMultiset(entries, e');
    InMultiset(entries', e');
    CompareIsATotalPreorder(v, v', v);
  }

  // ----- several repositories

  function IndexOf(indexes: map<string, Index>, repo: string): Index
  {
    if repo in indexes then indexes[repo] else map[]
  }

  function EntriesOf(indexes: map<string, Index>, repo: Repo, r: Release): seq<IndexEntry>
  {
    Listed(IndexOf(indexes, repo.name), r.chart)
  }

  /** l offers version v from a repository, by its helm alias if it has one. */
  ghost predicate Offered(repo: Repo, v: string, l: Latest)
  {
    && l.version == v && l.source == repo.name && l.repoURL == repo.url && l.err == ""
    && (repo.fromHelm ==> l.alias == repo.name) && (!repo.fromHelm ==> l.alias == "")
  }

  function ToLatest(cand: Candidate): (l: Latest)
    ensures Offered(cand.repo, cand.best, l)
  {
    Latest(cand.best, cand.repo.name, cand.repo.url, if cand.repo.fromHelm then cand.repo.name else "", "")
  }

  /** repos[i] carries a stable version of the chart. */
  predicate Carries(repos: seq<Repo>, indexes: map<string, Index>, r: Release, i: nat)
    requires i < |repos|
  {
    HasStable(EntriesOf(indexes, repos[i], r))
  }

  predicate Matches(repos: seq<Repo>, indexes: map<string, Index>, r: Release, i: nat)
    requires i < |repos|
  {
    OriginMatches(EntriesOf(indexes, repos[i], r), r)
  }

  ghost predicate SeveralCarry(repos: seq<Repo>, indexes: map<string, Index>, r: Release)
  {
    exists i: nat, j: nat :: i < j < |repos| && Carries(repos, indexes, r, i) && Carries(repos, indexes, r, j)
  }

  ghost predicate Eligible(repos: seq<Repo>, indexes: map<string, Index>, r: Release, i: nat)
    requires i < |repos|
  {
    Carries(repos, indexes, r, i) && (SeveralCarry(repos, indexes, r) ==> Matches(repos, indexes, r, i))
  }

  /** No eligible repository has a stable version newer than v. */
  ghost predicate NoneNewer(repos: seq<Repo>, indexes: map<string, Index>, r: Release, v: string)
  {
    forall j: nat, e :: j < |repos| && Eligible(repos, indexes, r, j) ==>
      e in EntriesOf(indexes, repos[j], r) && Stable(e) ==> CompareVersions(e.version, v) <= 0
  }

  /** repos[i] may make the offer: it is eligible, and v is a best version of
      its index that no eligible repository has a newer stable version than. */
  ghost predicate MayOffer(repos: seq<Repo>, indexes: map<string, Index>, r: Release, i: nat, v: string)
    requires i < |repos|
  {
    && Eligible(repos, indexes, r, i)
    && IsBest(EntriesOf(indexes, repos[i], r), v)
    && NoneNewer(repos, indexes, r, v)
  }

  /** l offers the best version of an eligible repository, and no eligible
      repository has a newer stable one. */
  ghost predicate OffersBest(repos: seq<Repo>, indexes: map<string, Index>, r: Release, l: Latest)
  {
    exists i: nat :: i < |repos| && MayOffer(repos, indexes, r, i, l.version) && Offered(repos[i], l.version, l)
  }

  /** repos[i] makes the offer: of the eligible repositories with a newest
      version it is the first, and of its newest entries the first is offered. */
  ghost predicate FirstOffer(repos: seq<Repo>, indexes: map<string, Index>, r: Release, i: nat, l: Latest)
    requires i < |repos|
  {
    && MayOffer(repos, indexes, r, i, l.version) && Offered(repos[i], l.version, l)
    && IsFirstBest(EntriesOf(indexes, repos[i], r), l.version)
    && forall j: nat :: j < i && Eligible(repos, indexes, r, j) ==> AllOlder(EntriesOf(indexes, repos[j], r), l.version)
  }

  ghost predicate AllOlder(entries: seq<IndexEntry>, v: string)
  {
    forall e :: e in entries && Stable(e) ==> CompareVersions(e.version, v) < 0
  }

  /** The candidates found so far are those of the first n repositories. */
  ghost predicate Found(repos: seq<Repo>, indexes: map<string, Index>, r: Release, n: nat, at: seq<nat>,
      cands: seq<Candidate>)
    requires n <= |repos|
  {
    && |at| == |cands|
    && (forall k :: 0 <= k < |at| ==> at[k] < n && IsCandidate(repos, indexes, r, at[k], cands[k]))
    && (forall k, m :: 0 <= k < m < |at| ==> at[k] < at[m])
    && (forall i: nat :: i < n && Carries(repos, indexes, r, i) ==> i in at)
  }

  ghost predicate IsCandidate(repos: seq<Repo>, indexes: map<string, Index>, r: Release, i: nat, cand: Candidate)
    requires i < |repos|
  {
    && Carries(repos, indexes, r, i) && cand.repo == repos[i]
    && IsBest(EntriesOf(indexes, repos[i], r), cand.best)
    && IsFirstBest(EntriesOf(indexes, repos[i], r), cand.best)
    && (cand.origin <==> Matches(repos, indexes, r, i))
  }

  lemma OneMoreFound(repos: seq<Repo>, indexes: map<string, Index>, r: Release, i: nat, at: seq<nat>,
      cands: seq<Candidate>, cand: Candidate)
    requires i < |repos| && Found(repos, indexes, r, i, at, cands)
    ensures IsCandidate(repos, indexes, r, i, cand) ==> Found(repos, indexes, r, i + 1, at + [i], cands + [cand])
    ensures !Carries(repos, indexes, r, i) ==> Found(repos, indexes, r, i + 1, at, cands)
  {
    hide IsCandidate, Carries;
    assert forall j :: j in at + [i] <==> j in at || j == i;
  }

  /** What the best listed version of a repository that has one amounts to. */
  lemma BestIsCandidate(repos: seq<Repo>, indexes: map<string, Index>, r: Release, i: nat, cand: Candidate)
    requires i < |repos|
    ensures Carries(repos, indexes, r, i) <==> HasStable(Listed(IndexOf(indexes, repos[i].name), r.chart))
    ensures var entries := Listed(IndexOf(indexes, repos[i].name), r.chart);
      HasStable(entries) && cand.repo == repos[i] && IsFirstBest(entries, cand.best) && IsBest(entries, cand.best)
        && (cand.origin <==> OriginMatches(entries, r)) ==>
      IsCandidate(repos, indexes, r, i, cand)
  {
    hide IsBest, IsFirstBest, HasStable, OriginMatches;
  }

  method Candidates(repos: seq<Repo>, indexes: map<string, Index>, r: Release)
    returns (cands: seq<Candidate>, ghost at: seq<nat>)
    ensures Found(repos, indexes, r, |repos|, at, cands)
  {
    cands, at := [], [];
    assert Found(repos, indexes, r, 0, at, cands);
    hide *;
    for i := 0 to |repos|
      invariant Found(repos, indexes, r, i, at, cands)
    {
      var cand, ok := BestIn(repos[i], IndexOf(indexes, repos[i].name), r);
      ghost var was, had := cands, at;
      if ok {
        cands, at := cands + [cand], at + [i];
      }
      assert Found(repos, indexes, r, i + 1, at, cands) by {
        BestIsCandidate(repos, indexes, r, i, cand);
        OneMoreFound(repos, indexes, r, i, had, was, cand);
      }
    }
  }

  /** The eligible candidates are exactly those kept. */
  ghost predicate KeptAre(cands: seq<Candidate>, kept: seq<Candidate>, from: seq<nat>)
  {
    && |kept| == |from|
    && (forall n :: 0 <= n < |from| ==>
          from[n] < |cands| && kept[n] == cands[from[n]] && (|cands| > 1 ==> kept[n].origin))
    && (forall n: nat :: n < |cands| && (|cands| > 1 ==> cands[n].origin) ==> n in from)
    && forall k, m :: 0 <= k < m < |from| ==> from[k] < from[m]
  }

  method OriginMatched(cands: seq<Candidate>) returns (matched: seq<Candidate>, ghost from: seq<nat>)
    ensures |cands| > 1 ==> KeptAre(cands, matched, from)
    ensures matched == [] ==> forall n :: 0 <= n < |cands| ==> !cands[n].origin
  {
    matched, from := [], [];
    for i := 0 to |cands|
      invariant |matched| == |from|
      invariant forall k :: 0 <= k < |from| ==> from[k] < i && matched[k] == cands[from[k]] && matched[k].origin
      invariant forall n: nat :: n < i && cands[n].origin ==> n in from
      invariant forall k, m :: 0 <= k < m < |from| ==> from[k] < from[m]
    {
      if cands[i].origin { matched, from := matched + [cands[i]], from + [i]; }
    }
  }

  /** The first of the newest of some candidates. */
  method Newest(cands: seq<Candidate>) returns (best: Candidate, ghost k: nat)
    requires cands != []
    ensures k < |cands| && best == cands[k]
    ensures forall c :: c in cands ==> CompareVersions(c.best, best.best) <= 0
    ensures forall n :: 0 <= n < k ==> CompareVersions(cands[n].best, best.best) < 0
  {
    hide CompareVersions;
    best, k := cands[0], 0;
    CompareIsATotalPreorder(best.best, best.best, best.best);
    for i := 1 to |cands|
      invariant k < i && k < |cands| && best == cands[k]
      invariant forall n :: 0 <= n < i ==> CompareVersions(cands[n].best, best.best) <= 0
      invariant forall n :: 0 <= n < k ==> CompareVersions(cands[n].best, best.best) < 0
    {
      CompareIsATotalPreorder(cands[i].best, best.best, cands[i].best);
      if CompareVersions(cands[i].best, best.best) > 0 {
        forall n | 0 <= n < i
          ensures CompareVersions(cands[n].best, cands[i].best) < 0
        {
          CompareIsATotalPreorder(cands[i].best, cands[n].best, best.best);
          CompareIsATotalPreorder(cands[n].best, cands[i].best, best.best);
        }
        best, k := cands[i], i;
        CompareIsATotalPreorder(best.best, best.best, best.best);
      }
    }
  }

  function Join(names: seq<string>): string
  {
    if names == [] then "" else if |names| == 1 then names[0] else names[0] + ", " + Join(names[1..])
  }

  /** strings.Join of two lists of names */
  lemma {:induction false} JoinConcat(a: seq<string>, b: seq<string>, name: string)
    ensures Join([]) == "" && Join([name]) == name
    ensures a != [] && b != [] ==> Join(a + b) == Join(a) + ", " + Join(b)
  {
    if a != [] && b != [] {
      assert (a + b)[1..] == a[1..] + b;
      if |a| > 1 { JoinConcat(a[1..], b, name); } else { assert a[1..] + b == b; }
    }
  }

  lemma OneCarrier(repos: seq<Repo>, indexes: map<string, Index>, r: Release, at: seq<nat>, cands: seq<Candidate>)
    requires Found(repos, indexes, r, |repos|, at, cands)
    ensures SeveralCarry(repos, indexes, r) <==> |cands| > 1
  {
    hide Carries, Matches, IsBest, IsFirstBest;
    if |cands| > 1 {
      assert IsCandidate(repos, indexes, r, at[0], cands[0]) && IsCandidate(repos, indexes, r, at[1], cands[1]);
      assert at[0] < at[1];
    }
    if SeveralCarry(repos, indexes, r) {
      var i: nat, j: nat :| i < j < |repos| && Carries(repos, indexes, r, i) && Carries(repos, indexes, r, j);
      var k :| 0 <= k < |at| && at[k] == i;
      var m :| 0 <= m < |at| && at[m] == j;
    }
  }

  /** Where an eligible repository's candidate is among those kept. */
  lemma KeptOf(repos: seq<Repo>, indexes: map<string, Index>, r: Release,
      at: seq<nat>, cands: seq<Candidate>, kept: seq<Candidate>, from: seq<nat>, j: nat) returns (m: nat)
    requires Found(repos, indexes, r, |repos|, at, cands) && KeptAre(cands, kept, from)
    requires j < |repos| && Eligible(repos, indexes, r, j)
    ensures m < |kept| && from[m] < |at| && at[from[m]] == j && IsCandidate(repos, indexes, r, j, kept[m])
  {
    hide Carries, Matches, IsBest, IsFirstBest;
    OneCarrier(repos, indexes, r, at, cands);
    var n :| 0 <= n < |at| && at[n] == j;
    assert IsCandidate(repos, indexes, r, at[n], cands[n]);
    m :| 0 <= m < |from| && from[m] == n;
  }

  lemma CandidateBeats(repos: seq<Repo>, indexes: map<string, Index>, r: Release, j: nat, c: Candidate, e: IndexEntry)
    requires j < |repos| && IsCandidate(repos, indexes, r, j, c) && e in EntriesOf(indexes, repos[j], r) && Stable(e)
    ensures CompareVersions(e.version, c.best) <= 0
  {
    hide CompareVersions, IsFirstBest, OriginMatches;
  }

  lemma NewestBeatsEligible(repos: seq<Repo>, indexes: map<string, Index>, r: Release,
      at: seq<nat>, cands: seq<Candidate>, kept: seq<Candidate>, from: seq<nat>, best: Candidate, j: nat, e: IndexEntry)
    requires Found(repos, indexes, r, |repos|, at, cands) && KeptAre(cands, kept, from)
    requires forall c :: c in kept ==> CompareVersions(c.best, best.best) <= 0
    requires j < |repos| && Eligible(repos, indexes, r, j) && e in EntriesOf(indexes, repos[j], r) && Stable(e)
    ensures CompareVersions(e.version, best.best) <= 0
  {
    hide CompareVersions, Found, KeptAre, Eligible, IsCandidate;
    var m := KeptOf(repos, indexes, r, at, cands, kept, from, j);
    CandidateBeats(repos, indexes, r, j, kept[m], e);
    assert kept[m] in kept;
    CompareIsATotalPreorder(e.version, kept[m].best, best.best);
  }

  lemma EarlierIsOlder(repos: seq<Repo>, indexes: map<string, Index>, r: Release,
      at: seq<nat>, cands: seq<Candidate>, kept: seq<Candidate>, from: seq<nat>, k: nat, j: nat, e: IndexEntry)
    requires Found(repos, indexes, r, |repos|, at, cands) && KeptAre(cands, kept, from) && k < |kept|
    requires forall n :: 0 <= n < k ==> CompareVersions(kept[n].best, kept[k].best) < 0
    requires j < at[from[k]] && Eligible(repos, indexes, r, j)
    requires e in EntriesOf(indexes, repos[j], r) && Stable(e)
    ensures CompareVersions(e.version, kept[k].best) < 0
  {
    hide CompareVersions, Eligible, IsCandidate;
    var m := KeptOf(repos, indexes, r, at, cands, kept, from, j);
    assert m < k;
    hide Found, KeptAre;
    CandidateBeats(repos, indexes, r, j, kept[m], e);
    CompareIsATotalPreorder(kept[k].best, e.version, kept[m].best);
    CompareIsATotalPreorder(e.version, kept[k].best, e.version);
    CompareIsATotalPreorder(kept[m].best, kept[k].best, e.version);
  }

  lemma NewestIsOffered(repos: seq<Repo>, indexes: map<string, Index>, r: Release,
      at: seq<nat>, cands: seq<Candidate>, kept: seq<Candidate>, from: seq<nat>, best: Candidate, k: nat)
    requires Found(repos, indexes, r, |repos|, at, cands) && KeptAre(cands, kept, from)
    requires k < |kept| && best == kept[k]
    requires forall c :: c in kept ==> CompareVersions(c.best, best.best) <= 0
    requires forall n :: 0 <= n < k ==> CompareVersions(kept[n].best, best.best) < 0
    ensures exists i: nat :: i < |repos| && FirstOffer(repos, indexes, r, i, ToLatest(best))
  {
    hide CompareVersions, IsBest, IsFirstBest;
    OneCarrier(repos, indexes, r, at, cands);
    var i := at[from[k]];
    assert IsCandidate(repos, indexes, r, i, best);
    forall j: nat, e |
      j < |repos| && Eligible(repos, indexes, r, j) && e in EntriesOf(indexes, repos[j], r) && Stable(e)
      ensures CompareVersions(e.version, best.best) <= 0
    {
      NewestBeatsEligible(repos, indexes, r, at, cands, kept, from, best, j, e);
    }
    forall j: nat, e | j < i && Eligible(repos, indexes, r, j) && e in EntriesOf(indexes, repos[j], r) && Stable(e)
      ensures CompareVersions(e.version, best.best) < 0
    {
      EarlierIsOlder(repos, indexes, r, at, cands, kept, from, k, j, e);
    }
    assert MayOffer(repos, indexes, r, i, best.best);
    assert FirstOffer(repos, indexes, r, i, ToLatest(best));
  }

  /** The first of the newest is one of the best. */
  lemma FirstOfferIsBest(repos: seq<Repo>, indexes: map<string, Index>, r: Release, i: nat, l: Latest)
    requires i < |repos| && FirstOffer(repos, indexes, r, i, l)
    ensures OffersBest(repos, indexes, r, l) && Eligible(repos, indexes, r, i)
  {
    hide IsBest, NoneNewer;
  }

  function Refusal(names: seq<string>, chart: string): (err: string)
    ensures err != ""
  {
    "ambiguous: " + Join(names) + " all have a " + chart + " chart with a different origin"
  }

  /** The refusal lists, in their order, the repositories that carry the chart. */
  ghost predicate Refused(repos: seq<Repo>, indexes: map<string, Index>, r: Release, at: seq<nat>, err: string)
  {
    && (forall k, n :: 0 <= k < n < |at| ==> at[k] < at[n])
    && (forall i: nat :: i in at <==> i < |repos| && Carries(repos, indexes, r, i))
    && exists names ::
      && |names| == |at| && (forall k :: 0 <= k < |at| ==> at[k] < |repos| && names[k] == repos[at[k]].name)
      && err == "ambiguous: " + Join(names) + " all have a " + r.chart + " chart with a different origin"
  }

  lemma RefusedHere(repos: seq<Repo>, indexes: map<string, Index>, r: Release, at: seq<nat>, cands: seq<Candidate>,
      names: seq<string>)
    requires Found(repos, indexes, r, |repos|, at, cands)
    requires |names| == |cands| && forall k :: 0 <= k < |cands| ==> names[k] == cands[k].repo.name
    ensures Refused(repos, indexes, r, at, Refusal(names, r.chart))
  {
    hide Carries, Join;
    forall k | 0 <= k < |at|
      ensures at[k] < |repos| && names[k] == repos[at[k]].name
    {
      assert IsCandidate(repos, indexes, r, at[k], cands[k]);
    }
  }

  lemma OneKept(cands: seq<Candidate>)
    requires |cands| == 1
    ensures KeptAre(cands, cands, [0])
  {}

  lemma FoundIff(repos: seq<Repo>, indexes: map<string, Index>, r: Release, at: seq<nat>, cands: seq<Candidate>)
    requires Found(repos, indexes, r, |repos|, at, cands)
    ensures cands != [] <==> exists i: nat :: i < |repos| && Carries(repos, indexes, r, i)
  {
    hide Carries;
    if cands != [] { assert IsCandidate(repos, indexes, r, at[0], cands[0]); }
  }

  /** Searches the user's repositories. When several carry the chart, only
      those with a matching origin are trusted, and with none the answer is a
      refusal. */
  method SearchRepos(repos: seq<Repo>, indexes: map<string, Index>, r: Release) returns (l: Latest, ok: bool)
    ensures ok <==> exists i: nat :: i < |repos| && Carries(repos, indexes, r, i)
    ensures ok ==> (l.err == "" <==> exists i: nat :: i < |repos| && Eligible(repos, indexes, r, i))
    ensures ok && l.err == "" ==>
      OffersBest(repos, indexes, r, l) && exists i: nat :: i < |repos| && FirstOffer(repos, indexes, r, i, l)
    ensures l.err != "" ==> l == Latest("", "", "", "", l.err) && exists at :: Refused(repos, indexes, r, at, l.err)
  {
    hide Refused, OffersBest, FirstOffer, CompareVersions, Carries, Eligible, Refusal, ToLatest, Found, KeptAre;
    ghost var at;
    var cands;
    cands, at := Candidates(repos, indexes, r);
    FoundIff(repos, indexes, r, at, cands);
    if |cands| == 0 {
      return NO_LATEST, false;
    }
    var kept := cands;
    ghost var from := [0];
    if |cands| == 1 { OneKept(cands); }
    if |cands| > 1 {
      kept, from := OriginMatched(cands);
      if |kept| == 0 {
        NoneEligible(repos, indexes, r, at, cands);
        var names := seq(|cands|, k requires 0 <= k < |cands| => cands[k].repo.name);
        RefusedHere(repos, indexes, r, at, cands, names);
        return NO_LATEST.(err := Refusal(names, r.chart)), true;
      }
    }
    ghost var k;
    var best;
    best, k := Newest(kept);
    NewestIsOffered(repos, indexes, r, at, cands, kept, from, best, k);
    ghost var i: nat :| i < |repos| && FirstOffer(repos, indexes, r, i, ToLatest(best));
    FirstOfferIsBest(repos, indexes, r, i, ToLatest(best));
    return ToLatest(best), true;
  }

  lemma NoneEligible(repos: seq<Repo>, indexes: map<string, Index>, r: Release, at: seq<nat>, cands: seq<Candidate>)
    requires Found(repos, indexes, r, |repos|, at, cands) && |cands| > 1
    requires forall n :: 0 <= n < |cands| ==> !cands[n].origin
    ensures forall i: nat :: i < |repos| ==> !Eligible(repos, indexes, r, i)
  {
    hide HasStable, OriginMatches, IsBest;
    OneCarrier(repos, indexes, r, at, cands);
    forall i: nat | i < |repos| && Carries(repos, indexes, r, i)
      ensures !Matches(repos, indexes, r, i)
    {
      var n :| 0 <= n < |at| && at[n] == i;
      assert IsCandidate(repos, indexes, r, at[n], cands[n]);
    }
  }

  /** What a recorded install repository u answers. */
  ghost predicate RecordedAnswer(u: string, extra: map<string, Repo>, indexes: map<string, Index>, r: Release,
      l: Latest)
  {
    if u !in indexes then l == Latest("", u, u, "", "offline: " + u)
    else if !HasStable(Listed(indexes[u], r.chart)) then l == Latest("", u, u, "", "chart not in " + u)
    else
      && IsBest(Listed(indexes[u], r.chart), l.version)
      && IsFirstBest(Listed(indexes[u], r.chart), l.version)
      && Offered(if u in extra then extra[u] else Repo("", "", false), l.version, l)
  }

  /** The version offered for a release: a recorded install repository is the
      only one consulted, else the user's repositories are searched. */
  method ForRelease(repos: seq<Repo>, extra: map<string, Repo>, indexes: map<string, Index>, r: Release)
    returns (l: Latest, ok: bool)
    ensures RepoURL(r.repo) != "" ==> ok && RecordedAnswer(RepoURL(r.repo), extra, indexes, r, l)
    ensures RepoURL(r.repo) == "" ==> (ok <==> exists i: nat :: i < |repos| && Carries(repos, indexes, r, i))
    ensures RepoURL(r.repo) == "" && ok ==>
      (l.err == "" <==> exists i: nat :: i < |repos| && Eligible(repos, indexes, r, i))
    ensures RepoURL(r.repo) == "" && ok && l.err == "" ==>
      OffersBest(repos, indexes, r, l) && exists i: nat :: i < |repos| && FirstOffer(repos, indexes, r, i, l)
    ensures RepoURL(r.repo) == "" && l.err != "" ==> exists at :: Refused(repos, indexes, r, at, l.err)
    ensures l.err != "" ==> l.version == ""
  {
    hide Refused, IsBest, IsFirstBest, OffersBest, FirstOffer, HasStable, Eligible, RepoURL;
    var u := RepoURL(r.repo);
    if u != "" {
      var repo := if u in extra then extra[u] else Repo("", "", false);
      if u !in indexes {
        return Latest("", u, u, "", "offline: " + u), true;
      }
      var cand, found := BestIn(repo, indexes[u], r);
      if !found {
        return Latest("", u, u, "", "chart not in " + u), true;
      }
      return ToLatest(cand), true;
    }
    l, ok := SearchRepos(repos, indexes, r);
  }

  /** The offer, too, depends on the listing order only between versions that
      compare equal. */
  lemma OfferIgnoresOrder(repos: seq<Repo>, indexes: map<string, Index>, indexes': map<string, Index>, r: Release,
      l: Latest, l': Latest)
    requires forall i :: 0 <= i < |repos| ==>
      multiset(EntriesOf(indexes, repos[i], r)) == multiset(EntriesOf(indexes', repos[i], r))
    requires OffersBest(repos, indexes, r, l) && OffersBest(repos, indexes', r, l')
    ensures CompareVersions(l.version, l'.version) == 0
  {
    SameEligible(repos, indexes, indexes', r);
    OfferAtMost(repos, indexes, indexes', r, l, l');
    forall i | 0 <= i < |repos|
      ensures multiset(EntriesOf(indexes', repos[i], r)) == multiset(EntriesOf(indexes, repos[i], r))
    {}
    OfferAtMost(repos, indexes', indexes, r, l', l);
    CompareIsATotalPreorder(l.version, l'.version, l.version);
  }

  lemma SameEntries(a: seq<IndexEntry>, b: seq<IndexEntry>)
    requires multiset(a) == multiset(b)
    ensures forall e :: e in a <==> e in b
  {
    forall e
      ensures e in a <==> e in b
    {
      InMultiset(a, e);
      InMultiset(b, e);
    }
  }

  lemma SameEligible(repos: seq<Repo>, indexes: map<string, Index>, indexes': map<string, Index>, r: Release)
    requires forall i :: 0 <= i < |repos| ==>
      multiset(EntriesOf(indexes, repos[i], r)) == multiset(EntriesOf(indexes', repos[i], r))
    ensures forall i: nat :: i < |repos| ==> Eligible(repos, indexes, r, i) == Eligible(repos, indexes', r, i)
  {
    forall i: nat | i < |repos|
      ensures Carries(repos, indexes, r, i) == Carries(repos, indexes', r, i)
      ensures Matches(repos, indexes, r, i) == Matches(repos, indexes', r, i)
    {
      SameEntries(EntriesOf(indexes, repos[i], r), EntriesOf(indexes', repos[i], r));
    }
  }

  lemma OfferAtMost(repos: seq<Repo>, indexes: map<string, Index>, indexes': map<string, Index>, r: Release,
      l: Latest, l': Latest)
    requires forall i :: 0 <= i < |repos| ==>
      multiset(EntriesOf(indexes, repos[i], r)) == multiset(EntriesOf(indexes', repos[i], r))
    requires forall i: nat :: i < |repos| ==> Eligible(repos, indexes, r, i) == Eligible(repos, indexes', r, i)
    requires OffersBest(repos, indexes, r, l) && OffersBest(repos, indexes', r, l')
    ensures CompareVersions(l.version, l'.version) <= 0
  {
    hide CompareVersions, Eligible, IsPrerelease;
    var i: nat :| i < |repos| && MayOffer(repos, indexes, r, i, l.version);
    var e :| e in EntriesOf(indexes, repos[i], r) && Stable(e) && e.version == l.version;
    SameEntries(EntriesOf(indexes, repos[i], r), EntriesOf(indexes', repos[i], r));
  }

  // ----- is the version offered by the chart's own publisher

  /** Some stable entry of the release's origin lists v. */
  ghost predicate ListedByOurs(entries: seq<IndexEntry>, r: Release, v: string)
  {
    exists e :: e in entries && Stable(e) && SameOrigin(e, r) && e.version == v
  }

  /** f is a stable entry of another origin. */
  predicate Foreign(entries: seq<IndexEntry>, r: Release, f: IndexEntry)
  {
    f in entries && Stable(f) && !SameOrigin(f, r)
  }

  ghost predicate HasNewer(entries: seq<IndexEntry>, v: string)
  {
    exists e :: e in entries && Stable(e) && CompareVersions(e.version, v) > 0
  }

  lemma NewestIsBest(entries: seq<IndexEntry>, f: IndexEntry)
    requires f in entries && Stable(f)
    ensures IsBest(entries, f.version) <==> !HasNewer(entries, f.version)
  {
    hide CompareVersions;
  }

  /** Whatever the listing order, the best version is one an entry of the
      release's origin lists, exactly when every stable entry of another origin
      is outdone by a newer one or lists a version such an entry lists too. */
  lemma BestIsOursIff(entries: seq<IndexEntry>, r: Release)
    ensures (forall v :: IsBest(entries, v) ==> ListedByOurs(entries, r, v)) <==>
      forall f :: Foreign(entries, r, f) ==>
        HasNewer(entries, f.version) || ListedByOurs(entries, r, f.version)
  {
    hide CompareVersions, SameOrigin, IsPrerelease;
    forall f | f in entries && Stable(f)
      ensures IsBest(entries, f.version) <==> !HasNewer(entries, f.version)
    {
      NewestIsBest(entries, f);
    }
    forall v | IsBest(entries, v)
      ensures exists b :: b in entries && Stable(b) && b.version == v
    {}
    hide IsBest, HasNewer;
    forall f | f in entries && Stable(f) && SameOrigin(f, r)
      ensures ListedByOurs(entries, r, f.version)
    {}
  }

  /** An eligible repository has a stable version newer than v. */
  ghost predicate SomeNewer(repos: seq<Repo>, indexes: map<string, Index>, r: Release, v: string)
  {
    exists j: nat :: j < |repos| && Eligible(repos, indexes, r, j) && HasNewer(EntriesOf(indexes, repos[j], r), v)
  }

  lemma NewestMayBeOffered(repos: seq<Repo>, indexes: map<string, Index>, r: Release, i: nat, f: IndexEntry)
    requires i < |repos| && Eligible(repos, indexes, r, i)
    requires f in EntriesOf(indexes, repos[i], r) && Stable(f)
    ensures MayOffer(repos, indexes, r, i, f.version) <==> !SomeNewer(repos, indexes, r, f.version)
  {
    hide CompareVersions, Eligible, IsPrerelease;
    if !SomeNewer(repos, indexes, r, f.version) {
      forall j: nat, e |
        j < |repos| && Eligible(repos, indexes, r, j) && e in EntriesOf(indexes, repos[j], r) && Stable(e)
        ensures CompareVersions(e.version, f.version) <= 0
      {
        assert !HasNewer(EntriesOf(indexes, repos[j], r), f.version);
      }
    }
  }

  /** Whatever the order, no offer is a version that only other origins list
      in the repository it is from, exactly when every such entry of an
      eligible repository is outdone by a newer one of some eligible one. */
  lemma OffersAreOursIff(repos: seq<Repo>, indexes: map<string, Index>, r: Release)
    ensures (forall i: nat, v :: i < |repos| && MayOffer(repos, indexes, r, i, v) ==>
        ListedByOurs(EntriesOf(indexes, repos[i], r), r, v)) <==>
      forall i: nat, f :: i < |repos| && Eligible(repos, indexes, r, i) ==>
        Foreign(EntriesOf(indexes, repos[i], r), r, f) ==>
        SomeNewer(repos, indexes, r, f.version) || ListedByOurs(EntriesOf(indexes, repos[i], r), r, f.version)
  {
    hide CompareVersions, SameOrigin, IsPrerelease, Eligible;
    forall i: nat, f |
      i < |repos| && Eligible(repos, indexes, r, i) && f in EntriesOf(indexes, repos[i], r) && Stable(f)
      ensures MayOffer(repos, indexes, r, i, f.version) <==> !SomeNewer(repos, indexes, r, f.version)
      ensures SameOrigin(f, r) ==> ListedByOurs(EntriesOf(indexes, repos[i], r), r, f.version)
    {
      NewestMayBeOffered(repos, indexes, r, i, f);
    }
    forall i: nat, v | i < |repos| && MayOffer(repos, indexes, r, i, v)
      ensures Eligible(repos, indexes, r, i)
      ensures exists b :: b in EntriesOf(indexes, repos[i], r) && Stable(b) && b.version == v
    {}
    hide MayOffer, SomeNewer, ListedByOurs;
  }

  // up to versions that compare equal

  /** v compares equal to the version of a stable entry of the release's
      origin. */
  ghost predicate Ours(entries: seq<IndexEntry>, r: Release, v: string)
  {
    exists e :: e in entries && Stable(e) && SameOrigin(e, r) && CompareVersions(e.version, v) == 0
  }

  /** Every stable entry of another origin has one of the release's origin at
      least as new. */
  ghost predicate OursIsNewest(entries: seq<IndexEntry>, r: Release)
  {
    forall e :: e in entries && Stable(e) && !SameOrigin(e, r) ==>
      exists o :: o in entries && Stable(o) && SameOrigin(o, r) && CompareVersions(e.version, o.version) <= 0
  }

  /** The best version compares equal to one of the publisher's own exactly
      when its newest entry is as new as anyone's. */
  lemma BestEqualsOursIff(entries: seq<IndexEntry>, r: Release, v: string)
    requires IsBest(entries, v)
    ensures Ours(entries, r, v) <==> OriginMatches(entries, r) && OursIsNewest(entries, r)
  {
    hide CompareVersions, SameOrigin, IsPrerelease;
    if o :| o in entries && Stable(o) && SameOrigin(o, r) && CompareVersions(o.version, v) == 0 {
      forall e | e in entries && Stable(e) && !SameOrigin(e, r)
        ensures CompareVersions(e.version, o.version) <= 0
      {
        CompareIsATotalPreorder(e.version, v, o.version);
        CompareIsATotalPreorder(v, o.version, v);
      }
    }
    if OriginMatches(entries, r) && OursIsNewest(entries, r) {
      var b :| b in entries && Stable(b) && b.version == v;
      if SameOrigin(b, r) {
        CompareIsATotalPreorder(v, v, v);
      } else {
        var o :| o in entries && Stable(o) && SameOrigin(o, r) && CompareVersions(v, o.version) <= 0;
        CompareIsATotalPreorder(v, o.version, v);
      }
    }
  }

  /** repos[i] is eligible and lists a stable version no eligible repository
      has a newer one than. */
  ghost predicate Leads(repos: seq<Repo>, indexes: map<string, Index>, r: Release, i: nat)
    requires i < |repos|
  {
    && Eligible(repos, indexes, r, i)
    && exists b :: b in EntriesOf(indexes, repos[i], r) && Stable(b) && NoneNewer(repos, indexes, r, b.version)
  }

  lemma LeadersOffer(repos: seq<Repo>, indexes: map<string, Index>, r: Release, i: nat)
    requires i < |repos|
    ensures Leads(repos, indexes, r, i) <==> exists v :: MayOffer(repos, indexes, r, i, v)
  {
    hide CompareVersions, IsPrerelease, Eligible;
    if Leads(repos, indexes, r, i) {
      var b :| b in EntriesOf(indexes, repos[i], r) && Stable(b) && NoneNewer(repos, indexes, r, b.version);
      assert MayOffer(repos, indexes, r, i, b.version);
    }
  }

  /** When several repositories carry the chart, every offer compares equal to
      one of the publisher's own exactly when every repository with a newest
      version lists one of the release's origin at least as new as any other. */
  lemma OffersEqualOursIff(repos: seq<Repo>, indexes: map<string, Index>, r: Release)
    requires SeveralCarry(repos, indexes, r)
    ensures (forall i: nat, v :: i < |repos| && MayOffer(repos, indexes, r, i, v) ==>
      Ours(EntriesOf(indexes, repos[i], r), r, v))
      <==> forall i: nat :: i < |repos| && Leads(repos, indexes, r, i) ==>
        OursIsNewest(EntriesOf(indexes, repos[i], r), r)
  {
    forall i: nat, v | i < |repos| && MayOffer(repos, indexes, r, i, v)
      ensures Ours(EntriesOf(indexes, repos[i], r), r, v) <==> OursIsNewest(EntriesOf(indexes, repos[i], r), r)
    {
      BestEqualsOursIff(EntriesOf(indexes, repos[i], r), r, v);
    }
    hide MayOffer, Leads, Ours, OursIsNewest;
    forall i: nat | i < |repos|
      ensures Leads(repos, indexes, r, i) <==> exists v :: MayOffer(repos, indexes, r, i, v)
    {
      LeadersOffer(repos, indexes, r, i);
    }
  }

  /** Two repositories carry the chart, both with an entry of its origin; the
      newer version of the first is another publisher's, and is offered. */
  lemma OfferedEntryMayBeForeign(r: Release, home: string, other: string)
    requires SameOrigin(IndexEntry("1.0.0", home, []), r) && !SameOrigin(IndexEntry("2.0.0", other, []), r)
    ensures var ours, theirs := IndexEntry("1.0.0", home, []), IndexEntry("2.0.0", other, []);
      var repos := [Repo("a", "https://a", false), Repo("b", "https://b", false)];
      var indexes := map["a" := map[r.chart := [ours, theirs]], "b" := map[r.chart := [ours]]];
      && SeveralCarry(repos, indexes, r)
      && OffersBest(repos, indexes, r, Latest("2.0.0", "a", "https://a", "", ""))
      && forall i: nat, e :: i < |repos| && e in EntriesOf(indexes, repos[i], r) && e.version == "2.0.0" ==>
        !SameOrigin(e, r)
  {
    hide SameOrigin, CompareVersions, Parts, IsPrerelease, StripMeta, ReleaseCore;
    var ours, theirs := IndexEntry("1.0.0", home, []), IndexEntry("2.0.0", other, []);
    var repos := [Repo("a", "https://a", false), Repo("b", "https://b", false)];
    var indexes := map["a" := map[r.chart := [ours, theirs]], "b" := map[r.chart := [ours]]];
    assert EntriesOf(indexes, repos[0], r) == [ours, theirs] && EntriesOf(indexes, repos[1], r) == [ours];
    OneBeforeTwo();
    assert ours in [ours, theirs] && theirs in [ours, theirs] && ours in [ours];
    assert Carries(repos, indexes, r, 0) && Carries(repos, indexes, r, 1);
    assert Matches(repos, indexes, r, 0) && Matches(repos, indexes, r, 1);
    assert MayOffer(repos, indexes, r, 0, "2.0.0");
    assert Offered(repos[0], "2.0.0", Latest("2.0.0", "a", "https://a", "", ""));
  }

  /** An entry of the origin as new as any is not enough: of two versions that
      differ in their build metadata alone the other publisher's may be best. */
  lemma EqualIsNotOurs(r: Release, home: string, other: string)
    requires SameOrigin(IndexEntry("1.0.0", home, []), r) && !SameOrigin(IndexEntry("1.0.0+x", other, []), r)
    ensures var theirs, ours := IndexEntry("1.0.0+x", other, []), IndexEntry("1.0.0", home, []);
      var entries := [theirs, ours];
      && OriginMatches(entries, r) && OursIsNewest(entries, r)
      && IsBest(entries, "1.0.0+x") && !ListedByOurs(entries, r, "1.0.0+x")
  {
    hide SameOrigin, CompareVersions, IsPrerelease;
    var theirs, ours := IndexEntry("1.0.0+x", other, []), IndexEntry("1.0.0", home, []);
    BuildsAreEqual();
    assert theirs in [theirs, ours] && ours in [theirs, ours];
  }

  lemma BuildsAreEqual()
    ensures CompareVersions("1.0.0+x", "1.0.0") == CompareVersions("1.0.0", "1.0.0+x") == 0
    ensures CompareVersions("1.0.0+x", "1.0.0+x") == 0
    ensures !IsPrerelease("1.0.0") && !IsPrerelease("1.0.0+x")
  {
    hide CompareVersions, Parts, IsPrerelease, StripMeta, ReleaseCore;
    NumeralsOfOne();
    assert ReleaseCore(Core(1, 0, 0)) + "+x" == "1.0.0+x";
    ReadWritten("1.0.0", Core(1, 0, 0), "");
    ReadWritten("1.0.0+x", Core(1, 0, 0), "+x");
    CompareIsATotalPreorder("1.0.0", "1.0.0+x", "1.0.0");
    CompareIsATotalPreorder("1.0.0+x", "1.0.0+x", "1.0.0");
  }

  lemma OneBeforeTwo()
    ensures CompareVersions("1.0.0", "2.0.0") == -1 && CompareVersions("2.0.0", "2.0.0") == 0
    ensures !IsPrerelease("1.0.0") && !IsPrerelease("2.0.0")
  {
    hide CompareVersions, Parts, IsPrerelease, StripMeta, ReleaseCore;
    NumeralsOfOne();
    ReleasesCompareAsNumbers("1.0.0", Core(1, 0, 0), "", "2.0.0", Core(2, 0, 0), "");
    ReadWritten("1.0.0", Core(1, 0, 0), "");
    ReadWritten("2.0.0", Core(2, 0, 0), "");
    CompareIsATotalPreorder("2.0.0", "2.0.0", "2.0.0");
  }

  lemma NumeralsOfOne()
    ensures ReleaseCore(Core(1, 0, 0)) + "" == "1.0.0" && ReleaseCore(Core(2, 0, 0)) + "" == "2.0.0"
  {}
}
