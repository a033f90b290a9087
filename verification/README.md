# Verified decision logic of khealth

khealth inspects Kubernetes clusters from outside: it reads node logs, probes
etcd, looks up chart updates and bundles evidence. This project models the parts
of it that decide something and proves what those decisions promise, for all
inputs and over whole runs. `dafny verify dfyconfig.toml` checks everything.

What is modelled, file by file:

- `Regexp`, `Prefilter`, `PrefilterSoundness`, `PrefilterUse`, `PrefilterNeeds`:
  the literal prefilter of the log knowledge base. Simplified regular
  expressions are a datatype with a span-based match relation, so assertions see
  the text around them. The analysis is proved sound for every expression and
  span, exact where it claims to be, and as informative as the shape of the
  expression says; the filtered answer is proved equal to the unfiltered one.
- `Wire`, `Grpc`, `GrpcReplies`: the hand-written protobuf and gRPC decoder,
  against a matching encoder (Protocol Buffers Encoding, "Base 128 Varints" and
  "Message Structure"; gRPC over HTTP2, "Length-Prefixed-Message").
- `Defrag`: the one-member-at-a-time defragmentation, against arbitrary command
  answers and cancellation.
- `ProbeMerge`, `NodeRank`, `Quorum`, `MemberNames`: carrying probe results
  forward, ranking nodes for recovery, the quorum verdict, matching members.
- `Versions`, `Precedence`, `BestVersion`, `Origins`, `IndexCache`: chart version
  order and the standard's, the version offered, when two charts share an origin,
  and the index cache with its backoff.
- `Numbering`, `Clocks`, `Scrub`: file numbering, clock voting, tree scrubbing.
- `Common`, `Strings`, `SortedStrings`, `Numerals`, `Sorting`, `Widths`: shared
  vocabulary.

Where the source loops or updates in place, the model has a method with a loop,
proved equal to a function or to a declarative contract; the lemmas are about
that function. Strings are sequences of characters standing for bytes; times are
non-negative numbers on one clock, 0 being the zero time.

## Where the code and its promises part

The code is modelled as it is. These promises hold only under a condition, which
is proved to be the exact one where "iff" is said:

- `klogIndex` finds what its expression matches on every line iff the severity
  is a word character (`PrefilterUse.ScanIsTheExpression`). It is only called
  with letters.
- `exact` does not look at zero-width assertions: it is the language of the
  expression with its assertions erased, for every expression that has a list
  (`PrefilterSoundness.ExactIsTheErasedLanguage`), which may be more than the
  expression's own (`AssertionsMakeExactLoose`).
- `MayMatchBytes` is documented as `MayMatch` without allocating, but does not
  trim the line and always drops the empty one. What `MayMatch` keeps it keeps
  too, but for an empty line some unfiltered pattern would take; what it drops no
  pattern matches once trimmed, with the same exception
  (`PrefilterUse.StreamKeepsAll`, `DroppedLineMatchesNothing`). When the two
  agree is exact (`PrefilterUse.ReadersAgreeIff`); they differ on a klog header
  cut off after its blank (`CutHeaderIsKeptRaw`).
- A wire length of 2^63 or more passes the signed length test and stops at the
  slice bounds check instead of being a bad length. A message faults iff a run of
  whole fields in it ends at such a length (`Wire.FaultedIff`); eleven bytes do
  (`Wire.ElevenBytesFault`).
- The end of a framed message is computed in 32 bits and wraps for the five
  lengths from 2^32 - 5 on: a reply is accepted iff it holds a frame of at most
  2^32 - 6 bytes, and slicing stops iff it holds a longer one
  (`Grpc.FrameExactly`, `Grpc.FrameFaultsIff`).
- A member whose id is left out of the reply, as an encoder does with 0, reads as
  having no id, where `hexID` of the decimal 0 is 0 (`Grpc.Seen`).
- Defragmentation gives every member a turn iff the leader's id is not shared by
  several members (`Defrag.EveryMemberHasATurn`).
- Which node owns an id depends on the order of the records iff it is claimed for
  two nodes (`NodeRank.OwnersIgnoreOrderIff`), and a leader term, and with it a
  node's key, iff an election of such an id is not matched by one as late of an
  id that is the node's alone (`NodeRank.TermsIgnoreOrderIff`,
  `KeysIgnoreOrderIff`). Then another node may be ranked first
  (`ConflictingClaimsDependOnOrder`); otherwise every node keeps its key and,
  unless it ties, its place (`NodeRank.RankingIgnoresOrder`).
- `Lookup` says a same-named chart from another publisher is never offered, but
  only the repository's origin is checked, not the entry's. The best version of
  an index is listed by the publisher itself, whatever the listing order, iff
  every entry of another origin is outdone by a newer one or has its version
  listed by the publisher too (`BestVersion.BestIsOursIff`); for offers from
  several repositories the newer one may be in any eligible repository
  (`OffersAreOursIff`). One foreign offer is `OfferedEntryMayBeForeign`; for an
  own entry to be as new as any only makes the best version compare equal to it
  (`BestEqualsOursIff`, `OffersEqualOursIff`), and equal versions may differ in
  their build metadata (`EqualIsNotOurs`).
- Prereleases compare as text, which is item 11 of Semantic Versioning 2.0.0 iff
  the text agrees at the first identifiers that differ: numbers of one length or
  the shorter first, a number first, or two others without a dash against a dot
  (`Precedence.FollowsPrecedenceIff`). rc.10 counts as older than rc.9
  (`Precedence.TenBeforeNine`).
- An index fetched from the network is never lost to a failure, but helm's
  cached copy may replace it (`IndexCache.CachedCopyReplaces`): the network's is
  in use iff helm's has not been fallen back to since
  (`IndexCache.NetworkCopyInUseIff`).
- A lost quorum stays lost whatever is found out later iff the counted records
  not known to be down are themselves less than a majority
  (`Quorum.LostStaysLost`), as they are with no more records than voters
  (`Quorum.OneRecordAVoter`); a stray node may take the verdict back
  (`Quorum.StrayNodesMayBringItBack`).
- The note that "the nodes' clocks agree but differ from this machine" is given
  whenever most nodes are far from it. They agree iff the first and the last
  offset do (`Clocks.NodesAgreeIff`); the offset in the note is itself a far one
  iff at least half the nodes are too far ahead or more than half too far behind
  (`Clocks.MedianIsFarIff`, `Clocks.FarNodesMayDisagree`).

## Model

| member | source | states |
|---|---|---|
| PrefilterSoundness.LiteralsSound | internal/logs/prefilter.go:79-167 | for every expression and matched span, the lower-cased span is in the exact list if there is one, and some required literal lies inside it |
| PrefilterSoundness.ConcatSound | internal/logs/prefilter.go:136-165 | the concatenation loop's invariant: the current run spells the end of what matched, all of it while every part was exact, and the best set is hit |
| PrefilterSoundness.AlternateSound | internal/logs/prefilter.go:112-135 | the alternation loop collects the branch that matched, whichever it is |
| PrefilterSoundness.ExactIsTheLanguage | internal/logs/prefilter.go:84-167 | without zero-width assertions an exact list is exactly the lower-cased language |
| PrefilterSoundness.ExactIsTheErasedLanguage | internal/logs/prefilter.go:84-167 | for every expression with a list, the list is the lower-cased language of the expression with its assertions erased |
| PrefilterSoundness.ErasedLiterals | internal/logs/prefilter.go:96-97 | the analysis is the same with every assertion erased |
| PrefilterSoundness.ExactIsMatched | internal/logs/prefilter.go:91-167 | every listed string has a spelling that is matched in any surrounding text |
| PrefilterSoundness.ExactHasListSize | internal/logs/prefilter.go:89-167 | a list is kept iff the shape spells out 1 to 32 strings, and has that many: never more than maxExact, never dropped early |
| PrefilterSoundness.AssertionsMakeExactLoose | internal/logs/prefilter.go:96-97 | a concatenation with an assertion may list a string no text holds |
| PrefilterSoundness.InCross | internal/logs/prefilter.go:193-201 | a joined list holds every pair's concatenation |
| PrefilterSoundness.FromCross | internal/logs/prefilter.go:193-201 | a joined list holds nothing else |
| Prefilter.ComputeLiterals | internal/logs/prefilter.go:91-167 | the recursive analysis with its loops computes the function the lemmas are about |
| Prefilter.ComputeConcat | internal/logs/prefilter.go:136-165 | so does the concatenation loop over cur, best and allExact |
| Prefilter.ComputeAlternate | internal/logs/prefilter.go:112-135 | so does the alternation loop |
| Prefilter.ComputeCross | internal/logs/prefilter.go:193-201 | the two nested loops join the lists pairwise, in order |
| Prefilter.ComputeShortest | internal/logs/prefilter.go:211-219 | the loop finds the length of the shortest string, -1 for none |
| PrefilterUse.ShortestIsALength | internal/logs/prefilter.go:211-219 | the result is the length of some string and none is shorter |
| PrefilterUse.BetterIsAStrictOrder | internal/logs/prefilter.go:203-209 | better is a strict weak order |
| PrefilterUse.BetterIff | internal/logs/prefilter.go:203-209 | one set is better iff its shortest string is longer, or as long and it has fewer strings |
| PrefilterUse.ConcatKeepsTheMostSelective | internal/logs/prefilter.go:137-160 | a concatenation requires a set none of the candidate sets is more selective than, nil only when no candidate can be checked |
| PrefilterNeeds.NeedHasShape | internal/logs/prefilter.go:91-167 | for every expression, whether a required set is known and whether it holds the empty string is told by the shape alone |
| PrefilterNeeds.NeedOfHasShape | internal/logs/prefilter.go:169-179 | likewise for the set to use, which falls back on the exact list |
| PrefilterNeeds.AlternateNeedIs | internal/logs/prefilter.go:112-135 | an alternation has a required set iff it has a branch and all of them do, and then holds exactly the strings of its branches |
| PrefilterNeeds.RepeatedNeedIs | internal/logs/prefilter.go:104-111 | one or more of an expression requires what the expression does |
| PrefilterNeeds.NeedLiteralsIff | internal/logs/prefilter.go:63-77 | a pattern has literals iff a set is known by the shape and all its strings have three characters or more |
| PrefilterNeeds.TwoLiterals | internal/logs/prefilter.go:63-77 | two alternatives long enough are both kept, lower-cased |
| PrefilterNeeds.CatchAllsHaveNoLiterals | internal/logs/prefilter.go:25-27 | neither catch-all has literals worth checking |
| PrefilterUse.KlogIndex | internal/logs/prefilter.go:45-56 | the first header position, or -1 when there is none |
| PrefilterUse.KlogReMeaning | internal/logs/prefilter.go:41-43 | what the header's expression matches |
| Regexp.WordSpelled | internal/logs/prefilter.go:58-61 | word characters are the digits, the underscore and the ASCII letters |
| PrefilterUse.ScanIsTheExpression | internal/logs/prefilter.go:41-60 | scan and expression agree on every line iff the severity is a word character |
| PrefilterUse.Init | internal/logs/prefilter.go:21-39 | start-up derives every pattern's literals and necessary condition in place |
| PrefilterUse.PrePasses | internal/logs/prefilter.go:28-37 | the hand-written conditions of the two catch-alls |
| PrefilterUse.PreIsNecessary | internal/logs/prefilter.go:25-37 | a match of a catch-all expression meets its hand-written condition |
| PrefilterUse.NeedIsNecessary | internal/logs/prefilter.go:63-77 | a match anywhere in a line means the lower-cased line contains a required literal |
| PrefilterUse.Matches | internal/logs/prefilter.go:268-287 | the filtered answer equals the unanchored search, for every ready pattern and line |
| PrefilterUse.AnyPasses | internal/logs/prefilter.go:247-266 | the loop over the table: true iff some pattern lets the line through |
| PrefilterUse.MayMatch | internal/logs/prefilter.go:221-227 | the trimmed line is let through; one it rejects is matched by no pattern |
| PrefilterUse.CatchAllsPass | internal/logs/prefilter.go:25-37 | a catch-all lets a line through iff its marks are in it, any other pattern iff one of its literals is or it has none |
| PrefilterUse.RejectedLineMatchesNothing | internal/logs/prefilter.go:221-227 | a rejected line, trimmed as the patterns see it, is matched by none |
| PrefilterUse.TrimmedPasses | internal/logs/prefilter.go:221-245 | what a pattern lets through without the blanks around it, it lets through with them |
| PrefilterUse.StreamKeepsAll | internal/logs/prefilter.go:229-245 | the streaming form keeps all that MayMatch keeps, but for the empty line with an unfiltered pattern |
| PrefilterUse.DroppedLineMatchesNothing | internal/logs/prefilter.go:229-245 | a raw line the streaming form drops is matched by no pattern once trimmed |
| PrefilterUse.ReadersAgreeIff | internal/logs/prefilter.go:221-245 | MayMatch and MayMatchBytes agree on a line iff it has no hits or one clear of the blanks around it; with an unfiltered pattern, iff it is not empty |
| PrefilterUse.ReadersAgreeOnTrimmed | internal/logs/prefilter.go:221-245 | on trimmed text they differ on the empty line alone, and iff some pattern is unfiltered |
| PrefilterUse.CutHeaderIsKeptRaw | internal/logs/prefilter.go:221-245 | a klog header cut off after its blank is kept by one and rejected by the other |
| PrefilterUse.Scratch.MayMatchBytes | internal/logs/prefilter.go:229-245 | the reused buffer holds the lower-cased raw line; true iff it is not empty and some pattern lets it through untrimmed |
| PrefilterUse.Scratch.LowerInPlace | internal/logs/prefilter.go:238-242 | the loop lower-cases the buffer in place and touches nothing past it |
| Wire.ParseFields | internal/etcd/grpc.go:46-85 | the decoding loop computes the decoding function, errors and partial results included |
| Wire.VarintRoundTrip | internal/etcd/grpc.go:50-62 | every 64-bit value survives its varint, whatever follows |
| Wire.VarintFits | internal/etcd/grpc.go:50-62 | a decoded varint fits 64 bits |
| Wire.FirstRoundTrip | internal/etcd/grpc.go:50-82 | one encoded field decodes to its number, value and bytes, consuming exactly its encoding |
| Wire.MessageRoundTrip | internal/etcd/grpc.go:47-85 | any list of encodable fields decodes to itself, without error |
| Wire.FieldsRoundTrip | internal/etcd/grpc.go:47-85 | and decoding goes on with whatever follows |
| Wire.FieldsCompose | internal/etcd/grpc.go:47-85 | a decodable prefix keeps its fields and the rest decodes as a message of its own |
| Wire.FirstIsLocal | internal/etcd/grpc.go:50-82 | a decoded field depends on the bytes it consumed only |
| Wire.SuccessIsTiling | internal/etcd/grpc.go:47-85 | success iff the message is cut without remainder into non-empty spans that are its fields |
| Wire.FailurePoint | internal/etcd/grpc.go:52-80 | on failure the fields returned are those before the field at fault |
| Wire.CutField | internal/etcd/grpc.go:50-79 | an encoded field cut short gives no field but the error of its kind, or a bad key if cut in the key |
| Wire.UnknownKind | internal/etcd/grpc.go:79-80 | a field of an unlisted wire type gives the error that names the type |
| Wire.FaultedIff | internal/etcd/grpc.go:68-73 | decoding stops at the slice bounds iff a run of whole fields ends at a length of 2^63 or more |
| Wire.AnnouncedFaultsIff | internal/etcd/grpc.go:68-73 | a length-delimited field faults iff the length it announces is 2^63 or more, whatever follows |
| Wire.HugeLengthFaults | internal/etcd/grpc.go:68-73 | after any encoded fields such a length faults, keeping those fields |
| Wire.ElevenBytesFault | internal/etcd/grpc.go:68-73 | a message of eleven bytes that faults |
| Grpc.FrameExactly | internal/etcd/grpc.go:20-37 | a reply is accepted iff it starts with the frame of a message of at most 2^32 - 6 bytes, which is the answer |
| Grpc.FrameFaultsIff | internal/etcd/grpc.go:32-36 | slicing stops iff the reply starts with the whole frame of a longer message |
| Grpc.ReadFrame | internal/etcd/grpc.go:20-37 | a framed message is read back whatever trails it, up to the length that wraps |
| Grpc.CutFrame | internal/etcd/grpc.go:20-37 | a frame cut short is no reply, or a truncated one that says how much there is and how much was announced |
| Grpc.CompressedFrame | internal/etcd/grpc.go:24-26 | a first byte other than 0 is refused as compressed |
| Grpc.GrpcMembers | internal/etcd/grpc.go:87-126 | the decoded members in the order of their names, or the first error |
| Grpc.ParseMember | internal/etcd/grpc.go:107-121 | scalars from their last occurrence, lists from all of them in order |
| Grpc.MemberReadBack | internal/etcd/grpc.go:107-121 | a sent member is read back from fields in any order, empty scalars sent or left out, unlisted fields between |
| Grpc.EncodersSend | internal/etcd/grpc.go:87-88 | an encoder that writes every field and one that leaves zeros out both send the member |
| Grpc.MembersReadBack | internal/etcd/grpc.go:98-123 | all sent members are read back in order, other top-level fields making no difference |
| Grpc.MemberListRoundTrip | internal/etcd/grpc.go:87-126 | framing, encoding and decoding a member list gives those members, their ids as hexID gives them |
| Grpc.UnlistedIgnored | internal/etcd/grpc.go:99-120 | fields with unlisted numbers do not change what any listed number reads |
| Grpc.GrpcStatus | internal/etcd/grpc.go:128-172 | every scalar from its last occurrence, the member id from the headers' readable fields, an empty status refused |
| GrpcReplies.StatusReadBack | internal/etcd/grpc.go:141-167 | a sent status is read back field by field from fields in any order, empty scalars sent or left out |
| GrpcReplies.StatusRoundTrip | internal/etcd/grpc.go:128-172 | framing, encoding and decoding a status gives that status, and the empty one is refused |
| GrpcReplies.Int64RoundTrip | internal/etcd/grpc.go:152-163 | a signed 64-bit size survives being sent as an unsigned varint |
| Grpc.GrpcAlarms | internal/etcd/grpc.go:174-212 | the raised alarms in order, type 0 and untyped ones left out |
| GrpcReplies.AlarmReadBack | internal/etcd/grpc.go:190-209 | a sent alarm is read back with its member id in hex and the name of its type |
| GrpcReplies.AlarmsRoundTrip | internal/etcd/grpc.go:174-212 | framing, encoding and decoding a list of alarms gives those of a type other than 0, in order |
| GrpcReplies.LearnerFlag | internal/etcd/grpc.go:164-165 | a learner flag is set by any number but 0, and the last one sent counts |
| Numerals.HexIDOfDecimal | internal/etcd/probe.go:942-950 | hexID of a decimal id is its hex form |
| Numerals.HexIDOther | internal/etcd/probe.go:942-950 | anything but a decimal of 64 bits is left as it is |
| Numerals.NumeralRoundTrip | internal/etcd/grpc.go:111 | printed numerals read back, so different ids print differently |
| Defrag.OrderMembers | internal/etcd/defrag.go:84-98 | the members other than the leader at strictly increasing places of the list, none left out, then the last one with the leader's id if there is one |
| Defrag.RunOrderKeepsOrder | internal/etcd/defrag.go:84-98 | the same of the order the run is proved against |
| Defrag.EveryMemberHasATurn | internal/etcd/defrag.go:84-98 | the order is a permutation of the members iff at most one bears the leader's id, and only its last entry may be the leader |
| Defrag.DefragMember | internal/etcd/defrag.go:120-149 | the commands for one member, each answered by the world: sizes, the defragmentation, up to five health checks ending at the first good one or at cancellation |
| Defrag.CheckHealth | internal/etcd/defrag.go:133-147 | the health-check loop: every check but the last failed and was not followed by cancellation |
| Defrag.DefragCluster | internal/etcd/defrag.go:66-156 | one step per member with its exact skip reason, commands and outcome, and the abort notice iff one ended badly |
| Defrag.AtMostOneDegraded | internal/etcd/defrag.go:66-71 | at every moment of every run at most one member is defragmented and not yet healthy again |
| Defrag.DefragStartsServing | internal/etcd/defrag.go:66-71 | a defragmentation is only sent while no member is degraded |
| Defrag.BadIsLastTouched | internal/etcd/defrag.go:105-109 | at most one touched member ends badly, nothing is touched after it, and the run is aborted iff it exists |
| ProbeMerge.Probe.Merge | internal/etcd/probe.go:545-590 | the merged probe is the merge function of the two; the previous probe and its encryption evidence are neither written nor aliased |
| ProbeMerge.Probe.MergeFull | internal/etcd/probe.go:564-578 | the full-cycle step, evidence copied into the probe's own object |
| ProbeMerge.Probe.MergeCtl | internal/etcd/probe.go:579-589 | the etcdctl step |
| ProbeMerge.MergeShowsLastCollected | internal/etcd/probe.go:561-589 | over any history each skippable section shows the most recent probe that collected it, and its flag is set iff none did |
| ProbeMerge.MergeKeepsLastKnown | internal/etcd/probe.go:564-588 | rke2 settings, encryption configuration with its tokens and sample with its key come from the last probe since collection that had any |
| ProbeMerge.TokensFollowConfig | internal/etcd/probe.go:570-572 | the provider tokens shown belong to the configuration file shown |
| ProbeMerge.LeaderEventsCarried | internal/etcd/probe.go:553-560 | elections come from the last probe that scanned the log or knew of any |
| ProbeMerge.LocalMemberCarried | internal/etcd/probe.go:553-556 | likewise the local member id |
| NodeRank.ComputeLastLeader | internal/etcd/probe.go:592-603 | the loop over events |
| NodeRank.LastLeaderIsLatest | internal/etcd/probe.go:592-603 | it returns the first event none is later than |
| NodeRank.LatestIsLatest | internal/checks/etcd_triage.go:298-313 | a node's leader term and time are the greatest over all events in all logs that name it |
| NodeRank.IDsAreClaimed | internal/checks/etcd_triage.go:270-278 | an id is known iff a record claims it, and belongs to a node that does |
| NodeRank.RankEtcdNodes | internal/checks/etcd_triage.go:265-335 | a permutation of the nodes' entries in which none exceeds an earlier one at the first of leader term, snapshot term and index, WAL index and writes where they differ; ties keep their order |
| NodeRank.FresherIff | internal/checks/etcd_triage.go:318-333 | one entry ranks before another iff it is greater at the first of those five numbers that differs |
| NodeRank.EntryShows | internal/checks/etcd_triage.go:281-312 | an entry shows the node's own member id or else the matched one, its disk, its log's last election and the latest that names it |
| Sorting.SortIsStable | internal/checks/etcd_triage.go:318-333 | the sort lists every element once, those that tie in their given order |
| NodeRank.RankingIgnoresOrder | internal/checks/etcd_triage.go:265-335 | when no contested election decides a term, reordering records, logs or events leaves every node its key, the keys their places, and every node that does not tie its place |
| NodeRank.NodeKeepsKey | internal/checks/etcd_triage.go:265-335 | a node has the same key in the evidence of records that say the same |
| NodeRank.KeysIgnoreOrderIff | internal/checks/etcd_triage.go:265-335 | every node has one key for all orders of the records iff no contested election decides a term |
| NodeRank.OwnersIgnoreOrderIff | internal/checks/etcd_triage.go:270-278 | whose ids are whose is the same for every order of the records iff no id is claimed for two nodes |
| NodeRank.TermsIgnoreOrderIff | internal/checks/etcd_triage.go:270-313 | so are the leader terms iff every election of a contested id is matched by one as late of an id that is the node's alone |
| NodeRank.ConsistentIsDecided | internal/checks/etcd_triage.go:270-313 | without contested ids they always are |
| NodeRank.ConflictingClaimsDependOnOrder | internal/checks/etcd_triage.go:270-313 | two orders of two records that rank a different node first, with different keys |
| NodeRank.FirstLedLast | internal/checks/etcd_triage.go:265-268 | the first node led at a term at least that of any election reported for a known node, and none led at that term has a later snapshot |
| Quorum.EtcdQuorumOf | internal/checks/etcd_triage.go:771-831 | the voting members or else all records, the records known healthy and known down that are no learners, lost iff neither the healthy nor the voters not down are more than half, and the leader by claim or by vote |
| Quorum.LostMeansNoMajority | internal/checks/etcd_triage.go:825-828 | lost iff there is a voter and no way for the unknown ones to be healthy makes more than half of them healthy |
| Quorum.LostStaysLost | internal/checks/etcd_triage.go:825-828 | a verdict of lost is final iff it is given and the counted records not known to be down are less than a majority |
| Quorum.OneRecordAVoter | internal/checks/etcd_triage.go:825-828 | so it is while no more records are counted than there are voters |
| Quorum.StrayNodesMayBringItBack | internal/checks/etcd_triage.go:782-793 | otherwise it need not be: a node without a member is counted as healthy |
| Quorum.MostPossible | internal/checks/etcd_triage.go:782-793 | the voters not known down are the most that can be healthy |
| Quorum.ElectLeader | internal/checks/etcd_triage.go:805-818 | the lowest id with the most votes, in whatever order the map is visited |
| Quorum.ElectedIsUnique | internal/checks/etcd_triage.go:813-818 | there is only one such id |
| Quorum.LastClaimIsLast | internal/checks/etcd_triage.go:794-804 | the claim used is that of the last listed member whose own status names it leader, with its name, term and index |
| Quorum.NameOfIDIsLast | internal/checks/etcd_triage.go:819-823 | an elected id is given the name of the last member that bears it |
| MemberNames.SuffixedIff | internal/checks/etcd_triage.go:843-848 | a member carries a node's name and a hex suffix iff stripping the suffix leaves that name |
| MemberNames.HexIDIff | internal/checks/etcd_triage.go:1001-1011 | a suffix is eight hexadecimal digits |
| MemberNames.MemberForNode | internal/checks/etcd_triage.go:833-862 | the first member by name, else by suffix, else by address; none iff no member's name, stripped name or URL host points to the node |
| MemberNames.NameFitsOneNode | internal/checks/etcd_triage.go:836-848 | by name a member fits two nodes only if they are its full and its stripped name |
| Versions.CompareIsATotalPreorder | internal/helmcheck/helmcheck.go:414-442 | antisymmetric, transitive, and 0 iff the versions agree after dropping the "v" and the build metadata |
| Versions.PartsOfStripped | internal/helmcheck/helmcheck.go:444-455 | the numbers are read off the stripped version |
| Versions.MetaDropped | internal/helmcheck/helmcheck.go:405-442 | one leading "v" and all from the first "+" on do not count, and what is left is a prerelease iff it has a dash |
| Versions.PartReads | internal/helmcheck/helmcheck.go:444-455 | a part is the number in it whatever stands around the digits, the largest int if too big, 0 without digits or with something between them, unless those before it are too big already |
| Versions.ShortAndLongCores | internal/helmcheck/helmcheck.go:444-455 | missing parts are 0, and so is a third part that holds a fourth |
| Versions.ReleasesCompareAsNumbers | internal/helmcheck/helmcheck.go:414-455 | releases compare as their numbers, however written, and a prerelease is below its release |
| Versions.PrereleasesCompareAsText | internal/helmcheck/helmcheck.go:425-433 | prereleases of one core compare as text |
| Precedence.FollowsPrecedenceIff | internal/helmcheck/helmcheck.go:414-433 | CompareVersions follows item 11 of Semantic Versioning on two prereleases iff text does at their first difference |
| Precedence.TextAgreesIff | internal/helmcheck/helmcheck.go:425-433 | text order of dotted identifiers is their precedence iff it is at the first that differ |
| Precedence.NumericOrder | internal/helmcheck/helmcheck.go:425-433 | numeric identifiers are ordered by length, then as text |
| Precedence.TenBeforeNine | internal/helmcheck/helmcheck.go:425-433 | rc.10 comes after rc.9 by the standard and before it here |
| BestVersion.BestIn | internal/helmcheck/helmcheck.go:365-382 | the first of the newest stable listed versions, and whether a stable entry is of the release's origin |
| BestVersion.JoinConcat | internal/helmcheck/helmcheck.go:344 | names are joined with a comma and a blank between them |
| BestVersion.BestIgnoresOrder | internal/helmcheck/helmcheck.go:365-382 | listing order decides only between versions that compare equal |
| BestVersion.ForRelease | internal/helmcheck/helmcheck.go:308-355 | a recorded repository alone, else the first of the newest over eligible repositories; a refusal naming the carriers in order when several carry the chart and none matches |
| BestVersion.FirstOfferIsBest | internal/helmcheck/helmcheck.go:348-354 | the first of the newest is one none is newer than, from an eligible repository |
| Origins.NormOfLink | internal/helmcheck/helmcheck.go:387-391 | links that differ in case, scheme, blanks around them, a trailing slash or ".git" are about one address |
| Origins.SameOriginIff | internal/helmcheck/helmcheck.go:386-403 | an entry is of a release's origin iff their home pages or some of their sources are about one address, empty links not counting |
| Origins.RepoURLOf | internal/helmcheck/helmcheck.go:160-168 | a recorded repository counts iff it is an http or https URL, then without blanks around it and one trailing slash |
| BestVersion.Newest | internal/helmcheck/helmcheck.go:348-353 | the loop picks the first candidate none is newer than |
| BestVersion.OfferIgnoresOrder | internal/helmcheck/helmcheck.go:308-355 | the offer depends on listing order only between equal versions |
| BestVersion.BestIsOursIff | internal/helmcheck/helmcheck.go:365-382 | the best version is one the release's origin lists, whatever the order, iff every foreign entry is outdone or has its version listed by the origin |
| BestVersion.BestEqualsOursIff | internal/helmcheck/helmcheck.go:365-382 | it compares equal to one of the origin's iff such an entry is as new as any other's |
| BestVersion.EqualIsNotOurs | internal/helmcheck/helmcheck.go:365-382 | with an own entry as new as any, a foreign one with other build metadata may still be best |
| BestVersion.OffersAreOursIff | internal/helmcheck/helmcheck.go:134-139 | no offer is a version only other origins list iff every such entry of an eligible repository is outdone by a newer one of some eligible one |
| BestVersion.OffersEqualOursIff | internal/helmcheck/helmcheck.go:134-139 | with several carriers every offer compares equal to one of the origin's iff that holds in every repository with a newest version |
| BestVersion.LeadersOffer | internal/helmcheck/helmcheck.go:329-354 | the repositories that may make the offer are those listing a newest version |
| BestVersion.OfferedEntryMayBeForeign | internal/helmcheck/helmcheck.go:134-139 | two repositories for which a version no entry of the origin has is offered |
| IndexCache.AttemptsAreFarApart | internal/helmcheck/helmcheck.go:182-194 | in any run two attempts on one repository are at least ten minutes apart, end to start, and more than an hour after a fetched index was stored |
| IndexCache.AsksAgainIff | internal/helmcheck/helmcheck.go:182-194 | in any run the next turn is an attempt iff every index fetched for its repository is over an hour old and its last attempt, if it fetched none, ended ten minutes before |
| IndexCache.RunKnows | internal/helmcheck/helmcheck.go:219-227 | what a run remembers of a repository is the outcome and end of its last attempt and the time of its last fetch |
| IndexCache.WhereFrom | internal/helmcheck/helmcheck.go:195-218 | an index is the network's when it gave one, helm's copy when the network did not answer and there is one, else there is none |
| IndexCache.IndexIsLastObtained | internal/helmcheck/helmcheck.go:202-226 | the index in use is the one last obtained; no failure loses it |
| IndexCache.NetworkCopyInUseIff | internal/helmcheck/helmcheck.go:202-226 | the index in use is one from the network iff it was fetched and helm's copy not fallen back to since |
| IndexCache.CachedCopyReplaces | internal/helmcheck/helmcheck.go:202-226 | a failed fetch an hour later puts helm's copy in its place |
| IndexCache.IndexIsKept | internal/helmcheck/helmcheck.go:221-226 | an index once there stays there |
| IndexCache.FetchedHasIndex | internal/helmcheck/helmcheck.go:221-226 | a fetch time implies an index |
| IndexCache.Checker.TakeTurn | internal/helmcheck/helmcheck.go:181-228 | one repository's turn updates the three maps as the run function says |
| IndexCache.Checker.RefreshIndexes | internal/helmcheck/helmcheck.go:180-229 | a refresh is the turns of its repositories |
| Numbering.ChoosePath | internal/bootstrap/bootstrap.go:667-682 | the unbounded loop ends with the first name that is free or this cluster's own |
| Numbering.NamesDiffer | internal/bootstrap/bootstrap.go:675-681 | no name is tried twice |
| Numbering.NamesSpelled | internal/bootstrap/bootstrap.go:675-681 | the names tried are the base and then the base with -2, -3 and so on before its .yaml |
| Numbering.Pigeonhole | internal/bootstrap/bootstrap.go:675-681 | as many names tried and taken cannot exceed the known files |
| Numbering.Owners | internal/bootstrap/bootstrap.go:671-674 | of two known files with one path the last decides the owner |
| Clocks.EvalClocks | internal/checks/checks.go:1077-1124 | exactly the nodes most voters are far from, in the order of their names, and the median offset when most nodes are far from this machine |
| Clocks.CountApart | internal/checks/checks.go:1088-1099 | the inner loop counts the other voters too far from a node |
| Clocks.FlaggedIff | internal/checks/checks.go:1086-1100 | a node is flagged iff more than half of the other nodes and this machine, which stands at 0, are further from it than the threshold |
| Clocks.MajorityDecides | internal/checks/checks.go:1072-1107 | when a strict majority agrees none of it is flagged and every node far from all of it is |
| Clocks.MedianIsFarIff | internal/checks/checks.go:1112-1123 | when the reported offset is really a far one |
| Clocks.NodesAgreeIff | internal/checks/checks.go:1121-1122 | the nodes agree iff the first and the last offset do |
| Clocks.FarNodesMayDisagree | internal/checks/checks.go:1112-1123 | readings of three nodes for which the machine is reported at 0 while the nodes disagree |
| Clocks.AgreeingNodesReportFar | internal/checks/checks.go:1121-1122 | when the nodes do agree the reported offset is a far one |
| Scrub.ScrubPass | internal/gather/gather.go:411-440 | the recursive pass computes the scrub |
| Scrub.EditOwn | internal/gather/gather.go:418-435 | the edits of one object, in their order |
| Scrub.CredNameIff | internal/gather/cluster.go:227 | a variable name is a credential's iff the case-folded alternation of the seven words matches inside it |
| Scrub.NothingSecretAt | internal/gather/gather.go:411-440 | by literal names: no path leads to managed fields or a last-applied annotation, Helm values read "<not collected>" or are empty, and an env value under such a name reads "<masked>" |
| Scrub.ScrubIsClean | internal/gather/gather.go:391-397 | no object at any depth keeps managed fields, a last-applied annotation, Helm values or a credential in clear |
| Scrub.ScrubbedIffClean | internal/gather/gather.go:411-440 | the scrub changes nothing iff there is nothing to scrub |
| Scrub.ScrubTwice | internal/gather/gather.go:411-440 | a second pass changes nothing |
| Scrub.ScrubShows | internal/gather/gather.go:411-440 | what every path shows afterwards, for every tree |
| Scrub.OrdinaryPathsUnchanged | internal/gather/gather.go:391-397 | a path whose steps lead to no managed fields, last-applied annotation, value of a credential or Helm values shows what it showed before |
| Scrub.NothingMadeUp | internal/gather/gather.go:411-440 | every path shows what it showed, "<not collected>", "<masked>" or nothing |

## Left out

- Parsing and simplifying regular expressions, and the regular-expression engine: the analysis starts from the simplified expression and the engine's answer is an input.
- Text outside ASCII: lower-casing and case folding are ASCII here; Go's Unicode folding and strings.ToLower do not fully agree.
- Base64 around the gRPC frame, JSON and YAML parsing: their results are inputs.
- SSH, exec, HTTP, file and clock access: answers, contents and times are inputs; mutexes and goroutines are not modelled.
- Scrub.ScrubPass: rebuilds the tree instead of writing through shared maps, so two references to one map are not captured; decoded JSON has none.
- ProbeMerge.Probe.Merge: says nothing of a probe merged into itself or already sharing its evidence object with the previous one, which no caller does; the section fields are grouped, and metadata fields Merge never touches are absent.
- NodeRank.RankEtcdNodes: assumes distinct node names, as map keys and node objects have them; the log line of an event is not kept.
- Defrag.DefragCluster: the time a step took is not recorded, and an answer is what the output parses to.
- Grpc.GrpcMembers: promises an ordered permutation and no order among equal names, as sort.Slice does.
- parsePeers, the endpoint ranking of the bootstrap and the finding texts: reading fields and wording, each settled by one function.
