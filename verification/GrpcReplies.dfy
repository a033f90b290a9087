/** The status and alarm replies, read back as they were sent: the encoders of
    the two messages and what khealth sees of them. */
module GrpcReplies {
  import opened Common
  import opened Grpc
  import opened Numerals
  import opened Widths
  import W = Wire

  /** A number sent as a varint, left out or not when it is 0. */
  ghost predicate SendsNumber(ws: seq<W.WireField>, num: nat, v: nat)
  {
    && v < TWO_64
    && (Numbered(ws, {num}) == [W.VarintField(num, v)] || (v == 0 && Numbered(ws, {num}) == []))
  }

  lemma NumberReadBack(ws: seq<W.WireField>, num: nat, v: nat)
    requires SendsNumber(ws, num, v)
    ensures ValueOf(Last(W.KeptAll(ws), num)) == v
  {
    hide Last, W.KeptAll, Numbered;
    OneNumber(ws, num);
  }

  /** An id sent as a varint, or not at all. */
  ghost predicate SendsID(ws: seq<W.WireField>, num: nat, id: Option<nat>)
  {
    && (id.Some? ==> id.value < TWO_64)
    && Numbered(ws, {num}) == if id.Some? then [W.VarintField(num, id.value)] else []
  }

  function SeenID(id: Option<nat>): string
  {
    if id.Some? then HexID(Decimal(id.value)) else ""
  }

  lemma IDReadBack(ws: seq<W.WireField>, num: nat, id: Option<nat>)
    requires SendsID(ws, num, id)
    ensures HexOf(Last(W.KeptAll(ws), num)) == SeenID(id)
  {
    hide Last, W.KeptAll, Numbered, HexID, Hex, Decimal;
    OneNumber(ws, num);
    if id.Some? { HexIDOfDecimal(id.value); }
  }

  /** A text sent as bytes, left out or not when it is empty. */
  ghost predicate SendsText(ws: seq<W.WireField>, num: nat, text: Bytes)
  {
    Numbered(ws, {num}) == [W.BytesField(num, text)] || (text == [] && Numbered(ws, {num}) == [])
  }

  lemma TextReadBack(ws: seq<W.WireField>, num: nat, text: Bytes)
    requires SendsText(ws, num, text)
    ensures TextOf(Last(W.KeptAll(ws), num)) == Text(text)
  {
    hide Last, W.KeptAll, Numbered;
    OneNumber(ws, num);
    assert Text([]) == "";
  }

  // ----- signed sizes

  /** How a signed 64-bit number is sent: a negative one from the upper half. */
  function Uint64(v: int): nat
    requires -TWO_63 <= v < TWO_63
  {
    if v >= 0 then v else v + TWO_64
  }

  lemma Int64RoundTrip(v: int)
    requires -TWO_63 <= v < TWO_63
    ensures Uint64(v) < TWO_64 && Int64(Uint64(v)) == v
  {}

  // ----- status

  datatype SentStatus = SentStatus(
    member: Option<nat>, version: Bytes, dbSize: int, leader: Option<nat>,
    raftIndex: nat, raftTerm: nat, errors: seq<Bytes>, dbSizeInUse: int, learner: bool)

  predicate SizesFit(s: SentStatus)
  {
    -TWO_63 <= s.dbSize < TWO_63 && -TWO_63 <= s.dbSizeInUse < TWO_63
  }

  /** ws sends s, with the member's id in the header. Fields may stand in any
      order, with others between them. */
  ghost predicate SendsStatus(ws: seq<W.WireField>, header: seq<W.WireField>, s: SentStatus)
  {
    && SizesFit(s)
    && Numbered(ws, {1}) == [W.BytesField(1, W.EncodeAll(header))]
    && (forall w :: w in header ==> W.Encodable(w)) && SendsID(header, 2, s.member)
    && SendsText(ws, 2, s.version)
    && SendsNumber(ws, 3, Uint64(s.dbSize))
    && SendsID(ws, 4, s.leader)
    && SendsNumber(ws, 5, s.raftIndex)
    && SendsNumber(ws, 6, s.raftTerm)
    && Numbered(ws, {8}) == Repeated(8, s.errors)
    && SendsNumber(ws, 9, Uint64(s.dbSizeInUse))
    && SendsNumber(ws, 10, if s.learner then 1 else 0)
  }

  /** The status khealth should see. */
  function SeenStatus(s: SentStatus): Status
  {
    Status(SeenID(s.member), Text(s.version), s.dbSize, SeenID(s.leader), s.raftIndex, s.raftTerm,
      TextAll(s.errors), s.dbSizeInUse, s.learner)
  }

  lemma OneHeader(ws: seq<W.WireField>, data: Bytes)
    requires Numbered(ws, {1}) == [W.BytesField(1, data)]
    ensures All(W.KeptAll(ws), 1) == [W.Field(1, 0, data)]
  {
    hide Last, All, Numbered;
    OneNumber(ws, 1);
    OneKept(W.BytesField(1, data), 1);
  }

  lemma FieldsOfOne(f: W.Field)
    ensures HeaderFields([f]) == W.Fields(f.data).out
  {
    HeaderFieldsSnoc([], f);
    assert [] + [f] == [f];
  }

  lemma HeaderReadBack(ws: seq<W.WireField>, header: seq<W.WireField>, id: Option<nat>)
    requires Numbered(ws, {1}) == [W.BytesField(1, W.EncodeAll(header))]
    requires (forall w :: w in header ==> W.Encodable(w)) && SendsID(header, 2, id)
    ensures HexOf(Last(HeaderFields(All(W.KeptAll(ws), 1)), 2)) == SeenID(id)
    ensures HeadersReadable(W.KeptAll(ws))
  {
    hide Last, All, Numbered, HeaderFields, W.EncodeAll, SendsID, SeenID, HexOf, W.Fields, W.KeptAll;
    OneHeader(ws, W.EncodeAll(header));
    FieldsOfOne(W.Field(1, 0, W.EncodeAll(header)));
    W.MessageRoundTrip(header);
    IDReadBack(header, 2, id);
  }

  /** A status is read back from its fields. */
  lemma StatusReadBack(ws: seq<W.WireField>, header: seq<W.WireField>, s: SentStatus)
    requires SendsStatus(ws, header, s)
    ensures StatusOf(W.KeptAll(ws)) == SeenStatus(s) && HeadersReadable(W.KeptAll(ws))
  {
    hide Last, All, Numbered, Repeated, W.KeptAll, HeaderFields, HeadersReadable, SeenID;
    hide SendsNumber, SendsID, SendsText;
    HeaderReadBack(ws, header, s.member);
    TextReadBack(ws, 2, s.version);
    Int64RoundTrip(s.dbSize);
    Int64RoundTrip(s.dbSizeInUse);
    NumberReadBack(ws, 3, Uint64(s.dbSize));
    IDReadBack(ws, 4, s.leader);
    NumberReadBack(ws, 5, s.raftIndex);
    NumberReadBack(ws, 6, s.raftTerm);
    OneNumber(ws, 8);
    RepeatedKept(8, s.errors, 8);
    NumberReadBack(ws, 9, Uint64(s.dbSizeInUse));
    NumberReadBack(ws, 10, if s.learner then 1 else 0);
  }

  /** A framed status decodes to itself; one with neither a version nor a term
      is refused as empty. */
  lemma StatusRoundTrip(ws: seq<W.WireField>, header: seq<W.WireField>, s: SentStatus, trail: Bytes)
    requires SendsStatus(ws, header, s)
    requires (forall w :: w in ws ==> W.Encodable(w)) && |W.EncodeAll(ws)| <= MAX_MESSAGE
    ensures StatusAnswer(Frame(W.EncodeAll(ws)) + trail) ==
      if s.version == [] && s.raftTerm == 0 then EmptyStatus else Ok(SeenStatus(s))
  {
    hide SendsStatus, StatusOf, HeadersReadable, W.Fields, W.EncodeAll, W.Encodable, Frame;
    ReadFrame(W.EncodeAll(ws), trail);
    W.MessageRoundTrip(ws);
    StatusReadBack(ws, header, s);
    assert |Text(s.version)| == |s.version|;
  }

  // ----- alarms

  /** An alarm as etcd sends it: 0 none, 1 out of space, 2 corrupt. */
  datatype SentAlarm = SentAlarm(member: Option<nat>, kind: nat)

  ghost predicate SendsAlarm(ws: seq<W.WireField>, a: SentAlarm)
  {
    && (forall w :: w in ws ==> W.Encodable(w))
    && SendsID(ws, 1, a.member) && SendsNumber(ws, 2, a.kind)
  }

  /** The name an alarm shows by. */
  function KindName(kind: nat): string
  {
    match kind
    case 1 => "NOSPACE"
    case 2 => "CORRUPT"
    case _ => Decimal(kind)
  }

  /** The alarms raised among those sent, in order. */
  function SeenAlarms(sent: seq<SentAlarm>): seq<Alarm>
  {
    if sent == [] then []
    else
      var before, a := SeenAlarms(sent[..|sent| - 1]), sent[|sent| - 1];
      if a.kind == 0 then before else before + [Alarm(SeenID(a.member), KindName(a.kind))]
  }

  lemma ZeroIsZero(v: nat)
    ensures Decimal(v) == "0" <==> v == 0
    ensures Decimal(v) != ""
  {
    NumeralRoundTrip(v, 10);
    assert Decimal(0) == "0";
    if Decimal(v) == "0" { NumeralInjective(v, 0, 10); }
  }

  /** An alarm is read back, and counts as raised unless its type is 0. */
  lemma AlarmReadBack(ws: seq<W.WireField>, a: SentAlarm)
    requires SendsAlarm(ws, a)
    ensures var read := AlarmOf(W.KeptAll(ws));
      && read.memberID == SeenID(a.member)
      && (a.kind == 0 <==> read.kind == "" || read.kind == "0")
      && (a.kind != 0 ==> read.kind == KindName(a.kind))
  {
    hide W.KeptAll, Numbered, SeenID, SendsID, Decimal, Last;
    IDReadBack(ws, 1, a.member);
    OneNumber(ws, 2);
    ZeroIsZero(a.kind);
  }

  /** The k-th alarm entry of top carries sent[k]. */
  ghost predicate CarriesAlarms(top: seq<W.WireField>, sent: seq<SentAlarm>, inner: seq<seq<W.WireField>>)
  {
    var entries := Numbered(top, {2});
    && |entries| == |sent| == |inner|
    && forall k :: 0 <= k < |sent| ==>
      entries[k] == W.BytesField(2, W.EncodeAll(inner[k])) && SendsAlarm(inner[k], sent[k])
  }

  lemma {:induction false} EntriesReadBack(
    entries: seq<W.WireField>, sent: seq<SentAlarm>, inner: seq<seq<W.WireField>>)
    requires |entries| == |sent| == |inner|
    requires forall k :: 0 <= k < |sent| ==>
      entries[k] == W.BytesField(2, W.EncodeAll(inner[k])) && SendsAlarm(inner[k], sent[k])
    ensures Raised(W.KeptAll(entries)) == SeenAlarms(sent) && EntriesReadable(W.KeptAll(entries))
  {
    hide W.Fields, W.EncodeAll, SendsAlarm, AlarmOf, SeenID, KindName;
    if entries != [] {
      hide Raised, SeenAlarms, EntriesReadable, W.KeptAll;
      var n := |entries| - 1;
      EntriesReadBack(entries[..n], sent[..n], inner[..n]);
      assert entries == entries[..n] + [entries[n]] && sent == sent[..n] + [sent[n]];
      EntryReadBack(entries[..n], sent[..n], sent[n], inner[n]);
    }
  }

  lemma EntryReadBack(entries: seq<W.WireField>, sent: seq<SentAlarm>, a: SentAlarm, ws: seq<W.WireField>)
    requires Raised(W.KeptAll(entries)) == SeenAlarms(sent) && EntriesReadable(W.KeptAll(entries))
    requires SendsAlarm(ws, a)
    ensures var all := entries + [W.BytesField(2, W.EncodeAll(ws))];
      Raised(W.KeptAll(all)) == SeenAlarms(sent + [a]) && EntriesReadable(W.KeptAll(all))
  {
    hide W.Fields, W.EncodeAll, SendsAlarm, AlarmOf, SeenID, KindName, Raised;
    AlarmEntry(ws, a);
    var f := W.Field(2, 0, W.EncodeAll(ws));
    assert W.KeptAll(entries + [W.BytesField(2, W.EncodeAll(ws))]) == W.KeptAll(entries) + [f];
    RaisedSnoc(W.KeptAll(entries), f);
    assert (sent + [a])[..|sent|] == sent;
  }

  lemma AlarmEntry(ws: seq<W.WireField>, a: SentAlarm)
    requires SendsAlarm(ws, a)
    ensures W.Fields(W.EncodeAll(ws)).Done?
    ensures var read := AlarmOf(W.Fields(W.EncodeAll(ws)).out);
      && (a.kind == 0 <==> read.kind == "" || read.kind == "0")
      && (a.kind != 0 ==> read == Alarm(SeenID(a.member), KindName(a.kind)))
  {
    hide AlarmOf, W.EncodeAll, SeenID, KindName;
    W.MessageRoundTrip(ws);
    AlarmReadBack(ws, a);
  }

  /** A framed alarm list decodes to the alarms raised in it, in order. */
  lemma AlarmsRoundTrip(top: seq<W.WireField>, sent: seq<SentAlarm>, inner: seq<seq<W.WireField>>, trail: Bytes)
    requires CarriesAlarms(top, sent, inner)
    requires (forall w :: w in top ==> W.Encodable(w)) && |W.EncodeAll(top)| <= MAX_MESSAGE
    ensures AlarmsAnswer(Frame(W.EncodeAll(top)) + trail) == Ok(SeenAlarms(sent))
  {
    hide SendsAlarm, Raised, EntriesReadable, W.Fields, W.EncodeAll, W.Encodable, Frame, All, SeenAlarms;
    ReadFrame(W.EncodeAll(top), trail);
    W.MessageRoundTrip(top);
    var entries := Numbered(top, {2});
    OneNumber(top, 2);
    EntriesReadBack(entries, sent, inner);
    AlikeAll(entries, 2);
  }

  lemma {:induction false} AlikeAll(ws: seq<W.WireField>, num: nat)
    requires forall k :: 0 <= k < |ws| ==> ws[k].num == num
    ensures All(W.KeptAll(ws), num) == W.KeptAll(ws)
  {
    if ws != [] {
      var n := |ws| - 1;
      AlikeAll(ws[..n], num);
      assert W.KeptAll(ws)[..n] == W.KeptAll(ws[..n]);
      assert W.KeptAll(ws) == W.KeptAll(ws[..n]) + [W.Kept(ws[n])];
    }
  }

  // ----- flags

  lemma {:induction false} NoneNumbered(fs: seq<W.Field>, num: nat)
    requires forall f :: f in fs ==> f.num != num
    ensures Last(fs, num) == []
  {
    if fs != [] { NoneNumbered(fs[..|fs| - 1], num); }
  }

  /** A learner flag is set by any number but 0, and the last one sent counts. */
  lemma LearnerFlag(fs: seq<W.Field>, v: nat, data: W.Bytes, rest: seq<W.Field>)
    requires forall f :: f in rest ==> f.num !in {5, 10}
    ensures MemberOf(fs + [W.Field(5, v, data)] + rest).isLearner <==> v != 0
    ensures StatusOf(fs + [W.Field(10, v, data)] + rest).isLearner <==> v != 0
  {
    NoneNumbered(rest, 5);
    NoneNumbered(rest, 10);
    LastAppend(fs + [W.Field(5, v, data)], rest, 5);
    LastAppend(fs + [W.Field(10, v, data)], rest, 10);
  }
}
