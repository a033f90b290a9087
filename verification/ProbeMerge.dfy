/** Carrying probe results forward: a light probe cycle skips the expensive
    sections, and Merge fills them in from the probe before. */
module ProbeMerge {
  import opened Common
  import opened Grpc
  import opened Sorting

  datatype LeaderEvent = LeaderEvent(time: nat, term: nat, leader: string)

  // ----- values

  datatype EncryptionValue = EncryptionValue(
    configFile: string, tokens: seq<string>, sampleKey: string, samplePrefix: string)

  datatype FullSection = FullSection(
    sources: seq<string>, configDump: seq<string>, snapshotDirs: seq<string>, backupHints: seq<string>)

  datatype CtlSection = CtlSection(
    via: string, diag: string, out: string,
    members: seq<Member>, statuses: seq<Status>, alarms: seq<Alarm>, health: seq<string>)

  datatype PeerSection = PeerSection(peers: seq<string>, selfName: string)

  datatype ProbeValue = ProbeValue(
    localMemberID: string, leaderEvents: seq<LeaderEvent>, leaderLogSkipped: bool,
    peers: PeerSection, peersSkipped: bool,
    full: FullSection, rke2Config: map<string, string>, fullSkipped: bool,
    ctl: CtlSection, ctlSkipped: bool,
    encryption: Option<EncryptionValue>)

  const NO_ENCRYPTION := EncryptionValue("", [], "", "")

  function OrEmpty(e: Option<EncryptionValue>): EncryptionValue
  {
    if e.Some? then e.value else NO_ENCRYPTION
  }

  /** The encryption evidence after the full-cycle part of a merge. */
  function WithConfig(own: Option<EncryptionValue>, prev: Option<EncryptionValue>): Option<EncryptionValue>
  {
    if prev.None? then own
    else if OrEmpty(own).configFile != "" then own
    else Some(OrEmpty(own).(configFile := prev.value.configFile, tokens := prev.value.tokens))
  }

  /** The encryption evidence after the etcdctl part of a merge. */
  function WithSample(own: Option<EncryptionValue>, prev: Option<EncryptionValue>): Option<EncryptionValue>
  {
    if prev.None? || OrEmpty(own).samplePrefix != "" then own
    else Some(OrEmpty(own).(sampleKey := prev.value.sampleKey, samplePrefix := prev.value.samplePrefix))
  }

  // the four steps of a merge

  function WithLeaderLog(p: ProbeValue, prev: ProbeValue): ProbeValue
  {
    if !p.leaderLogSkipped then p
    else p.(
      localMemberID := if p.localMemberID == "" then prev.localMemberID else p.localMemberID,
      leaderEvents := if p.leaderEvents == [] then prev.leaderEvents else p.leaderEvents)
  }

  function WithPeers(p: ProbeValue, prev: ProbeValue): ProbeValue
  {
    if p.peersSkipped && !prev.peersSkipped then p.(peers := prev.peers, peersSkipped := false) else p
  }

  function WithFull(p: ProbeValue, prev: ProbeValue): ProbeValue
  {
    if p.fullSkipped && !prev.fullSkipped then
      p.(full := prev.full, fullSkipped := false,
      rke2Config := if p.rke2Config == map[] then prev.rke2Config else p.rke2Config,
      encryption := WithConfig(p.encryption, prev.encryption))
    else p
  }

  function WithCtl(p: ProbeValue, prev: ProbeValue): ProbeValue
  {
    if p.ctlSkipped && !prev.ctlSkipped then
      p.(ctl := prev.ctl, ctlSkipped := false, encryption := WithSample(p.encryption, prev.encryption))
    else p
  }

  function MergeValue(p: ProbeValue, prev: ProbeValue): ProbeValue
  {
    WithCtl(WithFull(WithPeers(WithLeaderLog(p, prev), prev), prev), prev)
  }

  // ----- the objects

  class Encryption {
    var configFile: string
    var tokens: seq<string>
    var sampleKey: string
    var samplePrefix: string

    constructor ()
      ensures Value() == NO_ENCRYPTION
    {
      configFile, tokens, sampleKey, samplePrefix := "", [], "", "";
    }

    function Value(): EncryptionValue
      reads this
    {
      EncryptionValue(configFile, tokens, sampleKey, samplePrefix)
    }
  }

  /** A probe's sections are grouped; the flags say which were skipped. */
  class Probe {
    var localMemberID: string
    var leaderEvents: seq<LeaderEvent>
    var leaderLogSkipped: bool
    var peers: PeerSection
    var peersSkipped: bool
    var full: FullSection
    var rke2Config: map<string, string>
    var fullSkipped: bool
    var ctl: CtlSection
    var ctlSkipped: bool
    var encryption: Encryption?

    function EncryptionNow(): Option<EncryptionValue>
      reads this, encryption
    {
      if encryption == null then None else Some(encryption.Value())
    }

    function Value(): ProbeValue
      reads this, encryption
    {
      ProbeValue(localMemberID, leaderEvents, leaderLogSkipped, peers, peersSkipped,
        full, rke2Config, fullSkipped, ctl, ctlSkipped, EncryptionNow())
    }

    /** Two probes with nothing in common but shared immutable values. */
    ghost predicate Separate(prev: Probe)
      reads this, prev
    {
      prev != this && (encryption == null || prev.encryption != encryption)
    }

    method MergeLeaderLog(prev: Probe)
      modifies `localMemberID, `leaderEvents
      ensures old(Separate(prev)) ==> Value() == WithLeaderLog(old(Value()), prev.Value())
    {
      if leaderLogSkipped {
        if localMemberID == "" {
          localMemberID := prev.localMemberID;
        }
        if |leaderEvents| == 0 {
          leaderEvents := prev.leaderEvents;
        }
      }
    }

    method MergePeers(prev: Probe)
      modifies `peers, `peersSkipped
      ensures old(Separate(prev)) ==> Value() == WithPeers(old(Value()), prev.Value())
    {
      if peersSkipped && !prev.peersSkipped {
        peers, peersSkipped := prev.peers, false;
      }
    }

    method MergeFull(prev: Probe)
      modifies this, encryption
      ensures old(Separate(prev)) ==> Separate(prev) && prev.Value() == old(prev.Value())
      ensures old(Separate(prev)) ==> Value() == WithFull(old(Value()), prev.Value())
      ensures encryption == old(encryption) || fresh(encryption)
    {
      if fullSkipped && !prev.fullSkipped {
        full := prev.full;
        if prev.encryption != null {
          if encryption == null {
            encryption := new Encryption();
          }
          if encryption.configFile == "" {
            encryption.configFile, encryption.tokens := prev.encryption.configFile, prev.encryption.tokens;
          }
        }
        if |rke2Config| == 0 {
          rke2Config := prev.rke2Config;
        }
        fullSkipped := false;
      }
    }

    method MergeCtl(prev: Probe)
      modifies this, encryption
      ensures old(Separate(prev)) ==> Separate(prev) && prev.Value() == old(prev.Value())
      ensures old(Separate(prev)) ==> Value() == WithCtl(old(Value()), prev.Value())
      ensures encryption == old(encryption) || fresh(encryption)
    {
      if ctlSkipped && !prev.ctlSkipped {
        ctl, ctlSkipped := prev.ctl, false;
        if prev.encryption != null && (encryption == null || encryption.samplePrefix == "") {
          if encryption == null {
            encryption := new Encryption();
          }
          encryption.sampleKey, encryption.samplePrefix := prev.encryption.sampleKey, prev.encryption.samplePrefix;
        }
      }
    }

    /** Fills in what this probe skipped. The previous probe is only read: its
        fields and its encryption evidence stay as they were, and the evidence
        is copied into this probe's own object, never aliased. */
    method Merge(prev: Probe?)
      modifies this, encryption
      ensures prev == null ==> Value() == old(Value())
      ensures prev != null && old(Separate(prev)) ==>
        Value() == MergeValue(old(Value()), old(prev.Value())) && prev.Value() == old(prev.Value()) && Separate(prev)
      ensures encryption == old(encryption) || fresh(encryption)
    {
      hide WithLeaderLog, WithPeers, WithFull, WithCtl;
      if prev == null {
        return;
      }
      MergeLeaderLog(prev);
      MergePeers(prev);
      MergeFull(prev);
      MergeCtl(prev);
    }
  }

  // ----- a whole history of refresh cycles

  /** The state shown after the probes of h, each merged with the state before. */
  function Shown(h: seq<ProbeValue>): ProbeValue
    requires h != []
  {
    if |h| == 1 then h[0] else MergeValue(h[|h| - 1], Shown(h[..|h| - 1]))
  }

  /** One probe's contribution to a section: its own value, whether the probe
      skipped the section, and whether its own value gives way to the carried
      one when it did. */
  datatype Entry<T> = Entry(own: T, skipped: bool, givesWay: bool)

  ghost predicate AllSkipped<T>(es: seq<Entry<T>>)
  {
    forall i :: 0 <= i < |es| ==> es[i].skipped
  }

  ghost predicate LastCollected<T>(es: seq<Entry<T>>, c: nat)
  {
    c < |es| && !es[c].skipped && forall j :: c < j < |es| ==> es[j].skipped
  }

  /** m is where the shown section comes from: the last probe if every probe
      skipped it, else the last probe since it was collected whose own value
      did not give way. */
  ghost predicate Origin<T>(es: seq<Entry<T>>, m: nat)
  {
    m < |es| &&
    if AllSkipped(es) then m == |es| - 1
    else
      && (forall j :: m < j < |es| ==> es[j].givesWay)
      && exists c: nat :: c <= m && LastCollected(es, c) && (m == c || !es[m].givesWay)
  }

  /** The rule a section follows from probe to probe: its value and its flag. */
  function Carried<T>(es: seq<Entry<T>>): (T, bool)
    requires es != []
  {
    var e := es[|es| - 1];
    if |es| == 1 then (e.own, e.skipped)
    else
      var before := Carried(es[..|es| - 1]);
      (if e.skipped && !before.1 && e.givesWay then before.0 else e.own, e.skipped && before.1)
  }

  lemma {:induction false} CarriedFrom<T>(es: seq<Entry<T>>) returns (m: nat)
    requires es != []
    ensures Origin(es, m) && Carried(es).0 == es[m].own
    ensures Carried(es).1 <==> AllSkipped(es)
  {
    var n := |es| - 1;
    var e := es[n];
    m := n;
    if n == 0 {
      assert !e.skipped ==> LastCollected(es, 0);
    } else {
      var init := es[..n];
      var m' := CarriedFrom(init);
      assert AllSkipped(es) <==> AllSkipped(init) && e.skipped;
      if !e.skipped {
        assert LastCollected(es, n);
      } else if !AllSkipped(init) {
        var c: nat :| c <= m' && LastCollected(init, c) && (m' == c || !init[m'].givesWay);
        assert LastCollected(es, c);
        if e.givesWay { m := m'; }
      }
    }
  }

  lemma EntriesInit<T>(h: seq<ProbeValue>, entry: ProbeValue -> Entry<T>)
    requires h != []
    ensures MapSeq(h, entry)[..|h| - 1] == MapSeq(h[..|h| - 1], entry)
  {}

  function FullEntry(p: ProbeValue): Entry<FullSection> { Entry(p.full, p.fullSkipped, true) }

  function CtlEntry(p: ProbeValue): Entry<CtlSection> { Entry(p.ctl, p.ctlSkipped, true) }

  function PeersEntry(p: ProbeValue): Entry<PeerSection> { Entry(p.peers, p.peersSkipped, true) }

  function Rke2Entry(p: ProbeValue): Entry<map<string, string>>
  {
    Entry(p.rke2Config, p.fullSkipped, p.rke2Config == map[])
  }

  function ConfigFileOf(p: ProbeValue): string { OrEmpty(p.encryption).configFile }

  function SamplePrefixOf(p: ProbeValue): string { OrEmpty(p.encryption).samplePrefix }

  /** The configuration file found, with its provider tokens. */
  function ConfigOf(p: ProbeValue): Option<(string, seq<string>)>
  {
    if ConfigFileOf(p) == "" then None else Some((ConfigFileOf(p), OrEmpty(p.encryption).tokens))
  }

  /** The sample found: its key and what its value starts with. */
  function SampleOf(p: ProbeValue): Option<(string, string)>
  {
    if SamplePrefixOf(p) == "" then None else Some((OrEmpty(p.encryption).sampleKey, SamplePrefixOf(p)))
  }

  function ConfigEntry(p: ProbeValue): Entry<Option<(string, seq<string>)>>
  {
    Entry(ConfigOf(p), p.fullSkipped, ConfigOf(p).None?)
  }

  function SampleEntry(p: ProbeValue): Entry<Option<(string, string)>>
  {
    Entry(SampleOf(p), p.ctlSkipped, SampleOf(p).None?)
  }

  /** What one merge does to each section. */
  lemma MergeSteps(p: ProbeValue, prev: ProbeValue)
    ensures var s := MergeValue(p, prev);
      && s.peersSkipped == (p.peersSkipped && prev.peersSkipped)
      && s.peers == (if p.peersSkipped && !prev.peersSkipped then prev.peers else p.peers)
      && s.fullSkipped == (p.fullSkipped && prev.fullSkipped)
      && s.full == (if p.fullSkipped && !prev.fullSkipped then prev.full else p.full)
      && s.rke2Config == (
        if p.fullSkipped && !prev.fullSkipped && p.rke2Config == map[] then prev.rke2Config else p.rke2Config)
      && s.ctlSkipped == (p.ctlSkipped && prev.ctlSkipped)
      && s.ctl == (if p.ctlSkipped && !prev.ctlSkipped then prev.ctl else p.ctl)
  {
    hide WithConfig, WithSample, WithLeaderLog, WithPeers, WithFull, WithCtl;
    var logged := WithLeaderLog(p, prev);
    var peered := WithPeers(logged, prev);
    LogStep(p, prev);
    PeersStep(logged, prev);
    FullStep(peered, prev);
    CtlStep(WithFull(peered, prev), prev);
  }

  // each step leaves the other sections as they are

  lemma LogStep(p: ProbeValue, prev: ProbeValue)
    ensures WithLeaderLog(p, prev) == p.(
      localMemberID := WithLeaderLog(p, prev).localMemberID, leaderEvents := WithLeaderLog(p, prev).leaderEvents)
  {}

  lemma PeersStep(p: ProbeValue, prev: ProbeValue)
    ensures WithPeers(p, prev) == p.(
      peersSkipped := p.peersSkipped && prev.peersSkipped,
      peers := if p.peersSkipped && !prev.peersSkipped then prev.peers else p.peers)
  {}

  lemma FullStep(p: ProbeValue, prev: ProbeValue)
    ensures WithFull(p, prev) == p.(
      fullSkipped := p.fullSkipped && prev.fullSkipped,
      full := if p.fullSkipped && !prev.fullSkipped then prev.full else p.full,
      rke2Config :=
        if p.fullSkipped && !prev.fullSkipped && p.rke2Config == map[] then prev.rke2Config else p.rke2Config,
      encryption := WithFull(p, prev).encryption)
  {
    hide WithConfig;
  }

  lemma CtlStep(p: ProbeValue, prev: ProbeValue)
    ensures WithCtl(p, prev) == p.(
      ctlSkipped := p.ctlSkipped && prev.ctlSkipped,
      ctl := if p.ctlSkipped && !prev.ctlSkipped then prev.ctl else p.ctl,
      encryption := WithCtl(p, prev).encryption)
  {
    hide WithSample;
  }

  lemma MergeEvidence(p: ProbeValue, prev: ProbeValue)
    ensures ConfigOf(MergeValue(p, prev)) ==
      if p.fullSkipped && !prev.fullSkipped && ConfigOf(p).None? then ConfigOf(prev) else ConfigOf(p)
    ensures SampleOf(MergeValue(p, prev)) ==
      if p.ctlSkipped && !prev.ctlSkipped && SampleOf(p).None? then SampleOf(prev) else SampleOf(p)
  {
    hide WithFull, WithCtl, WithConfig, WithSample, ConfigOf, SampleOf;
    var base := WithPeers(WithLeaderLog(p, prev), prev);
    FullEvidence(base, prev);
    CtlEvidence(WithFull(base, prev), prev);
    SameEvidence(p, base);
  }

  lemma SameEvidence(p: ProbeValue, q: ProbeValue)
    requires p.encryption == q.encryption
    ensures ConfigOf(p) == ConfigOf(q) && SampleOf(p) == SampleOf(q)
  {}

  lemma FullEvidence(p: ProbeValue, prev: ProbeValue)
    ensures var s := WithFull(p, prev);
      && ConfigOf(s) == (
        if p.fullSkipped && !prev.fullSkipped && ConfigOf(p).None? then ConfigOf(prev) else ConfigOf(p))
      && SampleOf(s) == SampleOf(p) && s.ctlSkipped == p.ctlSkipped
  {}

  lemma CtlEvidence(p: ProbeValue, prev: ProbeValue)
    ensures var s := WithCtl(p, prev);
      && SampleOf(s) == (if p.ctlSkipped && !prev.ctlSkipped && SampleOf(p).None? then SampleOf(prev) else SampleOf(p))
      && ConfigOf(s) == ConfigOf(p)
  {}

  lemma {:induction false} ShownIsCarried(h: seq<ProbeValue>)
    requires h != []
    ensures Carried(MapSeq(h, FullEntry)) == (Shown(h).full, Shown(h).fullSkipped)
    ensures Carried(MapSeq(h, CtlEntry)) == (Shown(h).ctl, Shown(h).ctlSkipped)
    ensures Carried(MapSeq(h, PeersEntry)) == (Shown(h).peers, Shown(h).peersSkipped)
    ensures Carried(MapSeq(h, Rke2Entry)) == (Shown(h).rke2Config, Shown(h).fullSkipped)
    ensures Carried(MapSeq(h, ConfigEntry)) == (ConfigOf(Shown(h)), Shown(h).fullSkipped)
    ensures Carried(MapSeq(h, SampleEntry)) == (SampleOf(Shown(h)), Shown(h).ctlSkipped)
  {
    hide MergeValue, ConfigOf, SampleOf, MapSeq;
    if |h| > 1 {
      var init := h[..|h| - 1];
      ShownIsCarried(init);
      MergeSteps(h[|h| - 1], Shown(init));
      MergeEvidence(h[|h| - 1], Shown(init));
      EntriesInit(h, FullEntry);
      EntriesInit(h, CtlEntry);
      EntriesInit(h, PeersEntry);
      EntriesInit(h, Rke2Entry);
      EntriesInit(h, ConfigEntry);
      EntriesInit(h, SampleEntry);
    }
  }

  /** A section shows what the most recent probe that collected it found, and
      its flag is set only if none ever did (it then shows the last probe's
      own, uncollected, value). */
  ghost predicate ShowsLastCollected<T>(es: seq<Entry<T>>, value: T, flag: bool)
  {
    && (flag <==> AllSkipped(es))
    && (forall c: nat :: LastCollected(es, c) ==> value == es[c].own)
    && (!flag ==> exists c: nat :: LastCollected(es, c))
    && (flag && es != [] ==> value == es[|es| - 1].own)
  }

  lemma ShowsOrigin<T>(es: seq<Entry<T>>)
    requires es != [] && forall i :: 0 <= i < |es| ==> es[i].givesWay
    ensures ShowsLastCollected(es, Carried(es).0, Carried(es).1)
  {
    var m := CarriedFrom(es);
    forall c: nat | LastCollected(es, c)
      ensures Carried(es).0 == es[c].own
    {
      var c': nat :| c' <= m && LastCollected(es, c') && (m == c' || !es[m].givesWay);
      assert c == c' == m;
    }
  }

  /** Over any history of probes, light and full in any order. */
  lemma MergeShowsLastCollected(h: seq<ProbeValue>)
    requires h != []
    ensures ShowsLastCollected(MapSeq(h, FullEntry), Shown(h).full, Shown(h).fullSkipped)
    ensures ShowsLastCollected(MapSeq(h, CtlEntry), Shown(h).ctl, Shown(h).ctlSkipped)
    ensures ShowsLastCollected(MapSeq(h, PeersEntry), Shown(h).peers, Shown(h).peersSkipped)
  {
    hide Shown;
    ShownIsCarried(h);
    ShowsOrigin(MapSeq(h, FullEntry));
    ShowsOrigin(MapSeq(h, CtlEntry));
    ShowsOrigin(MapSeq(h, PeersEntry));
  }

  /** value comes from the last probe since collection that had one. */
  ghost predicate ShowsLastKnown<T>(es: seq<Entry<T>>, value: T)
  {
    exists m: nat :: Origin(es, m) && value == es[m].own
  }

  /** The rke2 settings, the encryption configuration with its tokens and the
      stored sample with its key come from the last probe since their section
      was collected that had any. */
  lemma MergeKeepsLastKnown(h: seq<ProbeValue>)
    requires h != []
    ensures ShowsLastKnown(MapSeq(h, Rke2Entry), Shown(h).rke2Config)
    ensures ShowsLastKnown(MapSeq(h, ConfigEntry), ConfigOf(Shown(h)))
    ensures ShowsLastKnown(MapSeq(h, SampleEntry), SampleOf(Shown(h)))
  {
    hide Shown, Origin;
    ShownIsCarried(h);
    var rke2 := CarriedFrom(MapSeq(h, Rke2Entry));
    var config := CarriedFrom(MapSeq(h, ConfigEntry));
    var sample := CarriedFrom(MapSeq(h, SampleEntry));
  }

  lemma MergeKeepsTokens(p: ProbeValue, prev: ProbeValue)
    requires ConfigFileOf(MergeValue(p, prev)) != ""
    ensures var from := if ConfigFileOf(p) != "" then p else prev;
      && ConfigFileOf(MergeValue(p, prev)) == ConfigFileOf(from)
      && OrEmpty(MergeValue(p, prev).encryption).tokens == OrEmpty(from.encryption).tokens
  {}

  /** The provider tokens shown are those of the configuration file shown. */
  lemma {:induction false} TokensFollowConfig(h: seq<ProbeValue>) returns (m: nat)
    requires h != [] && ConfigFileOf(Shown(h)) != ""
    ensures m < |h|
    ensures ConfigFileOf(Shown(h)) == ConfigFileOf(h[m])
    ensures OrEmpty(Shown(h).encryption).tokens == OrEmpty(h[m].encryption).tokens
  {
    hide MergeValue, ConfigFileOf;
    var n := |h| - 1;
    m := n;
    if n > 0 {
      MergeKeepsTokens(h[n], Shown(h[..n]));
      if ConfigFileOf(h[n]) == "" {
        m := TokensFollowConfig(h[..n]);
      }
    }
  }

  // the leader log is carried without a gate: its flag is not cleared

  /** m is the last probe that scanned the log, or that knew something anyway. */
  ghost predicate LogOrigin(h: seq<ProbeValue>, silent: ProbeValue -> bool, m: nat)
  {
    && m < |h| && (m == 0 || !h[m].leaderLogSkipped || !silent(h[m]))
    && forall j :: m < j < |h| ==> h[j].leaderLogSkipped && silent(h[j])
  }

  lemma MergeKeepsLog(p: ProbeValue, prev: ProbeValue)
    ensures var s := MergeValue(p, prev);
      && s.leaderEvents == (if p.leaderLogSkipped && p.leaderEvents == [] then prev.leaderEvents else p.leaderEvents)
      && s.localMemberID == (
        if p.leaderLogSkipped && p.localMemberID == "" then prev.localMemberID else p.localMemberID)
  {}

  /** The elections shown are those of the last probe that scanned the log or
      knew of any. */
  lemma {:induction false} LeaderEventsCarried(h: seq<ProbeValue>) returns (m: nat)
    requires h != []
    ensures LogOrigin(h, (p: ProbeValue) => p.leaderEvents == [], m) && Shown(h).leaderEvents == h[m].leaderEvents
  {
    hide MergeValue;
    var n := |h| - 1;
    m := n;
    if n > 0 {
      MergeKeepsLog(h[n], Shown(h[..n]));
      if h[n].leaderLogSkipped && h[n].leaderEvents == [] {
        m := LeaderEventsCarried(h[..n]);
      }
    }
  }

  lemma {:induction false} LocalMemberCarried(h: seq<ProbeValue>) returns (m: nat)
    requires h != []
    ensures LogOrigin(h, (p: ProbeValue) => p.localMemberID == "", m) && Shown(h).localMemberID == h[m].localMemberID
  {
    hide MergeValue;
    var n := |h| - 1;
    m := n;
    if n > 0 {
      MergeKeepsLog(h[n], Shown(h[..n]));
      if h[n].leaderLogSkipped && h[n].localMemberID == "" {
        m := LocalMemberCarried(h[..n]);
      }
    }
  }
}
