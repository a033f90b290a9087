/** The gRPC replies of an etcd member: the length-prefixed frame (gRPC over
    HTTP2, "Length-Prefixed-Message"), and the member list, status and alarm
    messages inside it. Input is the raw reply, already out of base64. */
module Grpc {
  import opened Common
  import opened Numerals
  import opened Sorting
  import opened Strings
  import opened Widths
  import W = Wire

  type Bytes = W.Bytes

  datatype Reply<T> =
    | Ok(value: T)
    | NoReply
    | Compressed
    | Truncated(have: nat, want: nat)
    | Undecodable(why: W.FieldError)
    | EmptyStatus
    | Fault

  // ----- the frame

  function BigEndian(b: Bytes): nat
  {
    if b == [] then 0 else 256 * BigEndian(b[..|b| - 1]) + b[|b| - 1]
  }

  function ToBigEndian(v: nat, n: nat): (b: Bytes)
    ensures |b| == n
  {
    if n == 0 then [] else ToBigEndian(v / 256, n - 1) + [v % 256]
  }

  lemma {:induction false} BigEndianRoundTrip(v: nat, n: nat)
    requires v < W.Pow256(n)
    ensures BigEndian(ToBigEndian(v, n)) == v
  {
    if n > 0 {
      BigEndianRoundTrip(v / 256, n - 1);
      assert ToBigEndian(v, n)[..n - 1] == ToBigEndian(v / 256, n - 1);
    }
  }

  lemma {:induction false} BigEndianSpells(b: Bytes)
    ensures BigEndian(b) < W.Pow256(|b|) && ToBigEndian(BigEndian(b), |b|) == b
  {
    if b != [] {
      BigEndianSpells(b[..|b| - 1]);
    }
  }

  /** Strips the frame: one flag byte and four length bytes. The end of the
      message is computed in 32 bits: from 2^32 - 5 on it wraps to before its
      start, and slicing stops at the bounds check. */
  function GrpcMessage(raw: Bytes): Reply<Bytes>
  {
    if |raw| < 5 then NoReply
    else if raw[0] != 0 then Compressed
    else
      var n := BigEndian(raw[1..5]);
      if n > |raw| - 5 then Truncated(|raw| - 5, n)
      else
        var end := (5 + n) % TWO_32;
        if end < 5 then Fault else Ok(raw[5..end])
  }

  function Frame(msg: Bytes): Bytes
  {
    [0] + ToBigEndian(|msg|, 4) + msg
  }

  /** The longest message that can be sliced out of its frame. */
  const MAX_MESSAGE := TWO_32 - 6

  /** An uncompressed reply with all the bytes it announces is the frame of a
      message with something trailing it. */
  lemma FrameOf(raw: Bytes) returns (msg: Bytes, trail: Bytes)
    requires |raw| >= 5 && raw[0] == 0 && BigEndian(raw[1..5]) <= |raw| - 5
    ensures |msg| == BigEndian(raw[1..5]) < TWO_32 && raw == Frame(msg) + trail
  {
    W.PowersOf256();
    BigEndianSpells(raw[1..5]);
    var n := BigEndian(raw[1..5]);
    msg, trail := raw[5..5 + n], raw[5 + n..];
    assert raw == [raw[0]] + raw[1..5] + msg + trail;
  }

  lemma ReadFrame(msg: Bytes, trail: Bytes)
    requires |msg| < TWO_32
    ensures GrpcMessage(Frame(msg) + trail) == if |msg| <= MAX_MESSAGE then Ok(msg) else Fault
  {
    var raw := Frame(msg) + trail;
    W.PowersOf256();
    BigEndianRoundTrip(|msg|, 4);
    hide ToBigEndian, BigEndian, W.Pow256;
    assert raw[1..5] == ToBigEndian(|msg|, 4);
    assert raw[5..5 + |msg|] == msg;
  }

  /** A reply is accepted exactly when it starts with the frame of a message
      of at most 2^32 - 6 bytes, and that message is the answer, whatever
      trails it. */
  lemma FrameExactly(raw: Bytes, msg: Bytes)
    ensures GrpcMessage(raw) == Ok(msg) <==>
      |msg| <= MAX_MESSAGE && exists trail: Bytes :: raw == Frame(msg) + trail
  {
    hide Frame;
    if GrpcMessage(raw) == Ok(msg) {
      var m, trail := FrameOf(raw);
      ReadFrame(m, trail);
    }
    if |msg| <= MAX_MESSAGE {
      forall trail: Bytes | raw == Frame(msg) + trail
        ensures GrpcMessage(raw) == Ok(msg)
      {
        ReadFrame(msg, trail);
      }
    }
  }

  /** Slicing stops exactly at the complete frames of the five lengths above. */
  lemma FrameFaultsIff(raw: Bytes)
    ensures GrpcMessage(raw) == Fault <==>
      exists msg: Bytes, trail: Bytes :: MAX_MESSAGE < |msg| < TWO_32 && raw == Frame(msg) + trail
  {
    hide Frame;
    if GrpcMessage(raw) == Fault {
      var msg, trail := FrameOf(raw);
      ReadFrame(msg, trail);
    }
    forall msg: Bytes, trail: Bytes | MAX_MESSAGE < |msg| < TWO_32 && raw == Frame(msg) + trail
      ensures GrpcMessage(raw) == Fault
    {
      ReadFrame(msg, trail);
    }
  }

  /** A reply cut short is told from none at all and from a whole one, and a
      compressed one from both. */
  lemma CutFrame(msg: Bytes, m: nat)
    requires |msg| < TWO_32 && m < |Frame(msg)|
    ensures GrpcMessage(Frame(msg)[..m]) == if m < 5 then NoReply else Truncated(m - 5, |msg|)
  {
    var raw := Frame(msg)[..m];
    if m >= 5 {
      W.PowersOf256();
      BigEndianRoundTrip(|msg|, 4);
      assert raw == [0] + ToBigEndian(|msg|, 4) + msg[..m - 5];
      assert raw[1..5] == ToBigEndian(|msg|, 4);
    }
  }

  lemma CompressedFrame(flag: W.Byte, rest: Bytes)
    requires flag != 0 && |rest| >= 4
    ensures GrpcMessage([flag] + rest) == Compressed
  {}

  // ----- what a list of decoded fields says

  /** Raw bytes read as a string, one character a byte. */
  function Text(b: Bytes): (s: string)
    ensures |s| == |b| && forall k :: 0 <= k < |b| ==> s[k] as int == b[k]
  {
    seq(|b|, k requires 0 <= k < |b| => b[k] as char)
  }

  /** The last field numbered num. */
  function Last(fs: seq<W.Field>, num: nat): seq<W.Field>
  {
    if fs == [] then []
    else if fs[|fs| - 1].num == num then [fs[|fs| - 1]]
    else Last(fs[..|fs| - 1], num)
  }

  /** All fields numbered num, in order. */
  function All(fs: seq<W.Field>, num: nat): seq<W.Field>
  {
    if fs == [] then []
    else
      var rest := All(fs[..|fs| - 1], num);
      if fs[|fs| - 1].num == num then rest + [fs[|fs| - 1]] else rest
  }

  /** One more field: it counts for its own number only. */
  lemma Snoc(fs: seq<W.Field>, k: nat, num: nat)
    requires k < |fs|
    ensures Last(fs[..k + 1], num) == if fs[k].num == num then [fs[k]] else Last(fs[..k], num)
    ensures All(fs[..k + 1], num) == if fs[k].num == num then All(fs[..k], num) + [fs[k]] else All(fs[..k], num)
  {
    assert fs[..k + 1][..k] == fs[..k];
  }

  function Texts(fs: seq<W.Field>): seq<string>
  {
    seq(|fs|, k requires 0 <= k < |fs| => Text(fs[k].data))
  }

  function HexOf(last: seq<W.Field>): string { if last == [] then "" else Hex(last[0].v) }
  function TextOf(last: seq<W.Field>): string { if last == [] then "" else Text(last[0].data) }
  function ValueOf(last: seq<W.Field>): nat { if last == [] then 0 else last[0].v }

  // ----- members

  datatype Member = Member(id: string, name: string, peerURLs: seq<string>, clientURLs: seq<string>, isLearner: bool)

  /** Member{ID=1, name=2, peerURLs=3, clientURLs=4, isLearner=5}: a scalar is
      what its last occurrence says, a list is all occurrences in order, and
      fields with other numbers say nothing. */
  function MemberOf(fs: seq<W.Field>): Member
  {
    Member(HexOf(Last(fs, 1)), TextOf(Last(fs, 2)), Texts(All(fs, 3)), Texts(All(fs, 4)), ValueOf(Last(fs, 5)) != 0)
  }

  method ParseMember(fs: seq<W.Field>) returns (m: Member)
    ensures m == MemberOf(fs)
  {
    m := Member("", "", [], [], false);
    for k := 0 to |fs|
      invariant m == MemberOf(fs[..k])
    {
      var g := fs[k];
      forall num: nat
        ensures Last(fs[..k + 1], num) == if g.num == num then [g] else Last(fs[..k], num)
        ensures All(fs[..k + 1], num) == if g.num == num then All(fs[..k], num) + [g] else All(fs[..k], num)
      {
        Snoc(fs, k, num);
      }
      match g.num {
        case 1 => m := m.(id := Hex(g.v));
        case 2 => m := m.(name := Text(g.data));
        case 3 => m := m.(peerURLs := m.peerURLs + [Text(g.data)]);
        case 4 => m := m.(clientURLs := m.clientURLs + [Text(g.data)]);
        case 5 => m := m.(isLearner := g.v != 0);
        case _ =>
      }
    }
    assert fs[..|fs|] == fs;
  }

  /** The members listed in a decoded reply, in wire order, up to the first
      undecodable one. */
  function Members(top: seq<W.Field>): Reply<seq<Member>>
  {
    if top == [] then Ok([])
    else
      var f := top[|top| - 1];
      var before := Members(top[..|top| - 1]);
      if before.Ok? && f.num == 2 then
        match W.Fields(f.data)
        case Done(fs) => Ok(before.value + [MemberOf(fs)])
        case Failed(_, why) => Undecodable(why)
        case Faulted(_) => Fault
      else before
  }

  predicate NameBefore(a: Member, b: Member) { Less(a.name, b.name) }

  lemma NameBeforeIsAnOrder()
    ensures StrictWeak(NameBefore)
  {
    forall a: Member, b: Member | NameBefore(a, b)
      ensures !NameBefore(b, a)
    {
      LessTrichotomy(a.name, b.name);
    }
    forall a: Member, b: Member, c: Member | NameBefore(a, c)
      ensures NameBefore(a, b) || NameBefore(b, c)
    {
      LessTrichotomy(a.name, b.name);
      LessTrichotomy(b.name, c.name);
      if Less(b.name, a.name) && Less(c.name, b.name) {
        LessTransitive(c.name, b.name, a.name);
        LessTrichotomy(a.name, c.name);
      } else if Less(b.name, a.name) && b.name == c.name {
        LessTrichotomy(a.name, c.name);
      }
    }
  }

  lemma {:induction false} MembersFailFast(top: seq<W.Field>, k: nat)
    requires k <= |top| && !Members(top[..k]).Ok?
    ensures Members(top) == Members(top[..k])
  {
    if k < |top| {
      assert top[..|top| - 1][..k] == top[..k];
      MembersFailFast(top[..|top| - 1], k);
    } else {
      assert top[..k] == top;
    }
  }

  /** What grpcMembers answers before sorting. */
  function Listed(raw: Bytes): Reply<seq<Member>>
  {
    match GrpcMessage(raw)
    case Ok(msg) =>
      (match W.Fields(msg)
       case Done(top) => Members(top)
       case Failed(_, why) => Undecodable(why)
       case Faulted(_) => Fault)
    case NoReply => NoReply
    case Compressed => Compressed
    case Truncated(have, want) => Truncated(have, want)
    case _ => Fault
  }

  method GrpcMembers(raw: Bytes) returns (r: Reply<seq<Member>>)
    ensures r.Ok? <==> Listed(raw).Ok?
    ensures !r.Ok? ==> r == Listed(raw)
    ensures r.Ok? ==> multiset(r.value) == multiset(Listed(raw).value)
    ensures r.Ok? ==> forall i, j :: 0 <= i < j < |r.value| ==> AtMost(r.value[i].name, r.value[j].name)
  {
    hide MemberOf, W.Fields;
    var msg := GrpcMessage(raw);
    if !msg.Ok? { return Listed(raw); }
    var top := W.ParseFields(msg.value);
    if top.Failed? { return Undecodable(top.why); }
    if top.Faulted? { return Fault; }
    var out := [];
    for k := 0 to |top.out|
      invariant Members(top.out[..k]) == Ok(out)
    {
      var f := top.out[k];
      assert top.out[..k + 1][..k] == top.out[..k];
      if f.num != 2 { continue; }
      var mf := W.ParseFields(f.data);
      if !mf.Done? {
        MembersFailFast(top.out, k + 1);
        return if mf.Failed? then Undecodable(mf.why) else Fault;
      }
      var m := ParseMember(mf.out);
      out := out + [m];
    }
    assert top.out[..|top.out|] == top.out;
    NameBeforeIsAnOrder();
    out := SortSlice(out, NameBefore);
    r := Ok(out);
  }

  // ----- the member list round trip

  /** A member as etcd sends it. An encoder that leaves zeros out sends no id
      for the id 0. */
  datatype Sent = Sent(id: Option<nat>, name: Bytes, peers: seq<Bytes>, clients: seq<Bytes>, learner: bool)

  function Repeated(num: nat, items: seq<Bytes>): seq<W.WireField>
  {
    seq(|items|, k requires 0 <= k < |items| => W.BytesField(num, items[k]))
  }

  /** The fields of ws with numbers in nums. */
  function Numbered(ws: seq<W.WireField>, nums: set<nat>): seq<W.WireField>
  {
    if ws == [] then []
    else
      var rest := Numbered(ws[..|ws| - 1], nums);
      if ws[|ws| - 1].num in nums then rest + [ws[|ws| - 1]] else rest
  }

  function TextAll(items: seq<Bytes>): seq<string>
  {
    seq(|items|, k requires 0 <= k < |items| => Text(items[k]))
  }

  /** ws sends m: each list in order, each scalar once, an empty name and a
      learner flag of false sent or left out. Fields of different numbers may
      stand in any order, with unlisted ones between them. */
  ghost predicate Sends(ws: seq<W.WireField>, m: Sent)
  {
    && Numbered(ws, {1}) == (if m.id.Some? then [W.VarintField(1, m.id.value)] else [])
    && (Numbered(ws, {2}) == [W.BytesField(2, m.name)] || (m.name == [] && Numbered(ws, {2}) == []))
    && Numbered(ws, {3}) == Repeated(3, m.peers)
    && Numbered(ws, {4}) == Repeated(4, m.clients)
    && (Numbered(ws, {5}) == [W.VarintField(5, if m.learner then 1 else 0)] || (!m.learner && Numbered(ws, {5}) == []))
  }

  predicate Sendable(m: Sent)
  {
    m.id.Some? ==> m.id.value < TWO_64
  }

  /** The member khealth should see. The id is the one hexID gives the decimal
      form of the same id; one left out reads as no id, not as 0. */
  function Seen(m: Sent): Member
  {
    Member(
      if m.id.Some? then HexID(Decimal(m.id.value)) else "",
      Text(m.name), TextAll(m.peers), TextAll(m.clients), m.learner)
  }

  lemma {:induction false} LastAppend(a: seq<W.Field>, b: seq<W.Field>, num: nat)
    ensures Last(a + b, num) == if Last(b, num) != [] then Last(b, num) else Last(a, num)
  {
    if b == [] {
      assert a + b == a;
    } else {
      assert (a + b)[..|a + b| - 1] == a + b[..|b| - 1];
      LastAppend(a, b[..|b| - 1], num);
    }
  }

  lemma {:induction false} AllAppend(a: seq<W.Field>, b: seq<W.Field>, num: nat)
    ensures All(a + b, num) == All(a, num) + All(b, num)
  {
    if b == [] {
      assert a + b == a;
    } else {
      assert (a + b)[..|a + b| - 1] == a + b[..|b| - 1];
      AllAppend(a, b[..|b| - 1], num);
    }
  }

  lemma {:induction false} RepeatedKept(n: nat, items: seq<Bytes>, num: nat)
    ensures var fs := W.KeptAll(Repeated(n, items));
      && All(fs, num) == (if n == num then fs else [])
      && (n != num ==> Last(fs, num) == [])
      && Texts(fs) == TextAll(items)
  {
    var fs := W.KeptAll(Repeated(n, items));
    if items != [] {
      var k := |items| - 1;
      RepeatedKept(n, items[..k], num);
      assert fs[..k] == W.KeptAll(Repeated(n, items[..k])) && fs == fs[..k] + [fs[k]];
      assert fs[k] == W.Field(n, 0, items[k]);
    }
  }

  lemma OneKept(w: W.WireField, num: nat)
    ensures var fs := W.KeptAll([w]);
      Last(fs, num) == All(fs, num) == if w.num == num then [W.Kept(w)] else []
  {
    var fs := W.KeptAll([w]);
    assert fs == [W.Kept(w)] && fs[..0] == [];
  }

  lemma KeptAppend(a: seq<W.WireField>, b: seq<W.WireField>)
    ensures W.KeptAll(a + b) == W.KeptAll(a) + W.KeptAll(b)
  {}

  /** Numbers outside the message definition make no difference. */
  lemma {:induction false} UnlistedIgnored(ws: seq<W.WireField>, nums: set<nat>, num: nat)
    requires num in nums
    ensures Last(W.KeptAll(Numbered(ws, nums)), num) == Last(W.KeptAll(ws), num)
    ensures All(W.KeptAll(Numbered(ws, nums)), num) == All(W.KeptAll(ws), num)
  {
    if ws != [] {
      var init, last := ws[..|ws| - 1], ws[|ws| - 1];
      assert ws == init + [last];
      KeptAppend(init, [last]);
      KeptAppend(Numbered(init, nums), [last]);
      OneKept(last, num);
      UnlistedIgnored(init, nums, num);
      LastAppend(W.KeptAll(init), W.KeptAll([last]), num);
      AllAppend(W.KeptAll(init), W.KeptAll([last]), num);
      LastAppend(W.KeptAll(Numbered(init, nums)), W.KeptAll([last]), num);
      AllAppend(W.KeptAll(Numbered(init, nums)), W.KeptAll([last]), num);
    }
  }

  /** What one number reads is what the fields of that number read. */
  lemma OneNumber(ws: seq<W.WireField>, num: nat)
    ensures Last(W.KeptAll(ws), num) == Last(W.KeptAll(Numbered(ws, {num})), num)
    ensures All(W.KeptAll(ws), num) == All(W.KeptAll(Numbered(ws, {num})), num)
    ensures Numbered(ws, {num}) == [] ==> Last(W.KeptAll(ws), num) == []
    ensures |Numbered(ws, {num})| == 1 && Numbered(ws, {num})[0].num == num ==>
      Last(W.KeptAll(ws), num) == [W.Kept(Numbered(ws, {num})[0])]
  {
    hide W.Kept, Last, All;
    UnlistedIgnored(ws, {num}, num);
    var ns := Numbered(ws, {num});
    if |ns| == 1 {
      assert ns == [ns[0]];
      OneKept(ns[0], num);
    } else if ns == [] {
      assert W.KeptAll(ns) == [];
      NoneLast(num);
    }
  }

  lemma NoneLast(num: nat)
    ensures Last([], num) == []
  {}

  /** A member is read back from its fields. */
  lemma MemberReadBack(m: Sent, ws: seq<W.WireField>)
    requires Sendable(m) && Sends(ws, m)
    ensures MemberOf(W.KeptAll(ws)) == Seen(m)
  {
    hide Last, All, Numbered, Repeated, W.KeptAll, HexID, Hex, Decimal;
    OneNumber(ws, 1);
    OneNumber(ws, 2);
    OneNumber(ws, 3);
    OneNumber(ws, 4);
    OneNumber(ws, 5);
    RepeatedKept(3, m.peers, 3);
    RepeatedKept(4, m.clients, 4);
    if m.id.Some? { HexIDOfDecimal(m.id.value); }
    assert Text([]) == "";
  }

  // the encoders there are send what Sends asks for

  /** Every field in order of its number, or only those that are not zero. */
  function MemberFields(id: nat, m: Sent, zeros: bool): seq<W.WireField>
  {
    (if zeros || id != 0 then [W.VarintField(1, id)] else [])
    + (if zeros || m.name != [] then [W.BytesField(2, m.name)] else [])
    + Repeated(3, m.peers) + Repeated(4, m.clients)
    + (if zeros || m.learner then [W.VarintField(5, if m.learner then 1 else 0)] else [])
  }

  lemma {:induction false} NumberedAppend(a: seq<W.WireField>, b: seq<W.WireField>, nums: set<nat>)
    ensures Numbered(a + b, nums) == Numbered(a, nums) + Numbered(b, nums)
  {
    if b == [] {
      assert a + b == a;
    } else {
      assert (a + b)[..|a + b| - 1] == a + b[..|b| - 1];
      NumberedAppend(a, b[..|b| - 1], nums);
    }
  }

  lemma {:induction false} NumberedAlike(ws: seq<W.WireField>, n: nat, num: nat)
    requires forall w :: w in ws ==> w.num == n
    ensures Numbered(ws, {num}) == if n == num then ws else []
  {
    if ws != [] { NumberedAlike(ws[..|ws| - 1], n, num); }
  }

  lemma NumberedFive(a: seq<W.WireField>, b: seq<W.WireField>, c: seq<W.WireField>, d: seq<W.WireField>,
      e: seq<W.WireField>, num: nat)
    requires forall w :: w in a ==> w.num == 1
    requires forall w :: w in b ==> w.num == 2
    requires forall w :: w in c ==> w.num == 3
    requires forall w :: w in d ==> w.num == 4
    requires forall w :: w in e ==> w.num == 5
    ensures Numbered(a + b + c + d + e, {num}) ==
      (if num == 1 then a else []) + (if num == 2 then b else []) + (if num == 3 then c else [])
      + (if num == 4 then d else []) + (if num == 5 then e else [])
  {
    NumberedAppend(a + b + c + d, e, {num});
    NumberedAppend(a + b + c, d, {num});
    NumberedAppend(a + b, c, {num});
    NumberedAppend(a, b, {num});
    NumberedAlike(a, 1, num);
    NumberedAlike(b, 2, num);
    NumberedAlike(c, 3, num);
    NumberedAlike(d, 4, num);
    NumberedAlike(e, 5, num);
  }

  lemma RepeatedNumbers(n: nat, items: seq<Bytes>)
    ensures forall w :: w in Repeated(n, items) ==> w.num == n
  {}

  lemma FieldsOf(id: nat, m: Sent, zeros: bool, num: nat)
    ensures Numbered(MemberFields(id, m, zeros), {num}) ==
      if num == 1 && (zeros || id != 0) then [W.VarintField(1, id)]
      else if num == 2 && (zeros || m.name != []) then [W.BytesField(2, m.name)]
      else if num == 3 then Repeated(3, m.peers)
      else if num == 4 then Repeated(4, m.clients)
      else if num == 5 && (zeros || m.learner) then [W.VarintField(5, if m.learner then 1 else 0)]
      else []
  {
    var a := if zeros || id != 0 then [W.VarintField(1, id)] else [];
    var b := if zeros || m.name != [] then [W.BytesField(2, m.name)] else [];
    var e := if zeros || m.learner then [W.VarintField(5, if m.learner then 1 else 0)] else [];
    assert MemberFields(id, m, zeros) == a + b + Repeated(3, m.peers) + Repeated(4, m.clients) + e;
    RepeatedNumbers(3, m.peers);
    RepeatedNumbers(4, m.clients);
    hide *;
    NumberedFive(a, b, Repeated(3, m.peers), Repeated(4, m.clients), e, num);
  }

  lemma EncodersSend(id: nat, m: Sent, zeros: bool)
    requires m.id == if zeros || id != 0 then Some(id) else None
    ensures Sends(MemberFields(id, m, zeros), m)
  {
    hide Numbered, Repeated, MemberFields;
    FieldsOf(id, m, zeros, 1);
    FieldsOf(id, m, zeros, 2);
    FieldsOf(id, m, zeros, 3);
    FieldsOf(id, m, zeros, 4);
    FieldsOf(id, m, zeros, 5);
  }

  /** The k-th member field of top carries ms[k], unlisted fields allowed. */
  ghost predicate Carries(top: seq<W.WireField>, ms: seq<Sent>, inner: seq<seq<W.WireField>>)
  {
    var entries := Numbered(top, {2});
    && |entries| == |ms| == |inner|
    && forall k :: 0 <= k < |ms| ==>
      && Sendable(ms[k])
      && entries[k] == W.BytesField(2, W.EncodeAll(inner[k]))
      && (forall w :: w in inner[k] ==> W.Encodable(w))
      && Sends(inner[k], ms[k])
  }

  function SeenAll(ms: seq<Sent>): (r: seq<Member>)
    ensures |r| == |ms|
  {
    seq(|ms|, k requires 0 <= k < |ms| => Seen(ms[k]))
  }

  lemma CarriesInit(top: seq<W.WireField>, ms: seq<Sent>, inner: seq<seq<W.WireField>>)
    requires top != [] && Carries(top, ms, inner)
    ensures var init, last, k := top[..|top| - 1], top[|top| - 1], |ms| - 1;
      if last.num == 2 then k >= 0 && Carries(init, ms[..k], inner[..k]) && last == Numbered(top, {2})[k]
      else Carries(init, ms, inner)
  {
    hide W.Encodable, W.Encode, Sends, Sendable;
    var init, last, k := top[..|top| - 1], top[|top| - 1], |ms| - 1;
    if last.num == 2 {
      assert Numbered(top, {2}) == Numbered(init, {2}) + [last];
    }
  }

  lemma {:induction false} MembersReadBack(top: seq<W.WireField>, ms: seq<Sent>, inner: seq<seq<W.WireField>>)
    requires Carries(top, ms, inner)
    ensures Members(W.KeptAll(top)) == Ok(SeenAll(ms))
  {
    hide MemberOf, Seen, W.Fields, W.Encode, W.Encodable, Sends, Sendable;
    if top != [] {
      var init, last, k := top[..|top| - 1], top[|top| - 1], |ms| - 1;
      CarriesInit(top, ms, inner);
      assert W.KeptAll(top)[..|top| - 1] == W.KeptAll(init);
      if last.num == 2 {
        MembersReadBack(init, ms[..k], inner[..k]);
        W.MessageRoundTrip(inner[k]);
        MemberReadBack(ms[k], inner[k]);
        assert SeenAll(ms) == SeenAll(ms[..k]) + [Seen(ms[k])];
      } else {
        MembersReadBack(init, ms, inner);
      }
    }
  }

  /** A framed member list decodes to those members: the answer of grpcMembers
      is a permutation of them sorted by name. Fields with other numbers may
      stand anywhere and bytes may trail the frame. */
  lemma MemberListRoundTrip(ms: seq<Sent>, top: seq<W.WireField>, inner: seq<seq<W.WireField>>, trail: Bytes)
    requires forall w :: w in top ==> W.Encodable(w)
    requires |W.EncodeAll(top)| <= MAX_MESSAGE
    requires Carries(top, ms, inner)
    ensures Listed(Frame(W.EncodeAll(top)) + trail) == Ok(SeenAll(ms))
  {
    FrameExactly(Frame(W.EncodeAll(top)) + trail, W.EncodeAll(top));
    W.MessageRoundTrip(top);
    MembersReadBack(top, ms, inner);
  }

  // ----- status

  datatype Status = Status(
    memberID: string, version: string, dbSize: int, leader: string,
    raftIndex: nat, raftTerm: nat, errors: seq<string>, dbSizeInUse: int, isLearner: bool)

  /** int64(v): the upper half of the 64-bit range is negative. */
  function Int64(v: nat): int
  {
    var low := v % TWO_64;
    if low < TWO_63 then low else low - TWO_64
  }

  /** The readable fields of all headers, in order. */
  function HeaderFields(headers: seq<W.Field>): seq<W.Field>
  {
    if headers == [] then []
    else HeaderFields(headers[..|headers| - 1]) + W.Fields(headers[|headers| - 1].data).out
  }

  /** StatusResponse{header=1, version=2, dbSize=3, leader=4, raftIndex=5,
      raftTerm=6, errors=8, dbSizeInUse=9, isLearner=10} */
  function StatusOf(top: seq<W.Field>): Status
  {
    Status(
      HexOf(Last(HeaderFields(All(top, 1)), 2)),
      TextOf(Last(top, 2)),
      Int64(ValueOf(Last(top, 3))),
      HexOf(Last(top, 4)),
      ValueOf(Last(top, 5)),
      ValueOf(Last(top, 6)),
      Texts(All(top, 8)),
      Int64(ValueOf(Last(top, 9))),
      ValueOf(Last(top, 10)) != 0)
  }

  predicate HeadersReadable(top: seq<W.Field>)
  {
    forall f | f in All(top, 1) :: !W.Fields(f.data).Faulted?
  }

  method HeaderMember(hf: seq<W.Field>, id: string) returns (r: string)
    ensures r == if Last(hf, 2) != [] then HexOf(Last(hf, 2)) else id
  {
    r := id;
    for k := 0 to |hf|
      invariant r == if Last(hf[..k], 2) != [] then HexOf(Last(hf[..k], 2)) else id
    {
      assert hf[..k + 1][..k] == hf[..k];
      if hf[k].num == 2 { r := Hex(hf[k].v); }
    }
    assert hf[..|hf|] == hf;
  }

  function StatusAnswer(raw: Bytes): Reply<Status>
  {
    match GrpcMessage(raw)
    case Ok(msg) =>
      (match W.Fields(msg)
       case Done(top) =>
         if !HeadersReadable(top) then Fault
         else if StatusOf(top).version == "" && StatusOf(top).raftTerm == 0 then EmptyStatus
         else Ok(StatusOf(top))
       case Failed(_, why) => Undecodable(why)
       case Faulted(_) => Fault)
    case NoReply => NoReply
    case Compressed => Compressed
    case Truncated(have, want) => Truncated(have, want)
    case _ => Fault
  }

  lemma {:induction false} InAll(fs: seq<W.Field>, k: nat)
    requires k < |fs|
    ensures fs[k] in All(fs, fs[k].num)
  {
    if k < |fs| - 1 { InAll(fs[..|fs| - 1], k); }
  }

  lemma HeaderFieldsSnoc(headers: seq<W.Field>, f: W.Field)
    ensures HeaderFields(headers + [f]) == HeaderFields(headers) + W.Fields(f.data).out
  {
    assert (headers + [f])[..|headers|] == headers;
  }

  lemma HeaderStep(fs: seq<W.Field>, k: nat)
    requires k < |fs| && fs[k].num == 1
    ensures var hf, es := W.Fields(fs[k].data).out, StatusOf(fs[..k]);
      StatusOf(fs[..k + 1]) == es.(memberID := if Last(hf, 2) != [] then HexOf(Last(hf, 2)) else es.memberID)
    ensures HeadersReadable(fs[..k + 1]) <==> HeadersReadable(fs[..k]) && !W.Fields(fs[k].data).Faulted?
    ensures HeadersReadable(fs) ==> !W.Fields(fs[k].data).Faulted?
  {
    hide W.Fields;
    forall num: nat
      ensures Last(fs[..k + 1], num) == if 1 == num then [fs[k]] else Last(fs[..k], num)
      ensures All(fs[..k + 1], num) == if 1 == num then All(fs[..k], num) + [fs[k]] else All(fs[..k], num)
    {
      Snoc(fs, k, num);
    }
    InAll(fs, k);
    HeaderFieldsSnoc(All(fs[..k], 1), fs[k]);
    LastAppend(HeaderFields(All(fs[..k], 1)), W.Fields(fs[k].data).out, 2);
  }

  /** The status once the field f, not a header, has been read. */
  function WithField(es: Status, f: W.Field): Status
  {
    match f.num
    case 2 => es.(version := Text(f.data))
    case 3 => es.(dbSize := Int64(f.v))
    case 4 => es.(leader := Hex(f.v))
    case 5 => es.(raftIndex := f.v)
    case 6 => es.(raftTerm := f.v)
    case 8 => es.(errors := es.errors + [Text(f.data)])
    case 9 => es.(dbSizeInUse := Int64(f.v))
    case 10 => es.(isLearner := f.v != 0)
    case _ => es
  }

  lemma OtherFieldsGrow(fs: seq<W.Field>, k: nat)
    requires k < |fs| && fs[k].num != 1
    ensures StatusOf(fs[..k + 1]) == WithField(StatusOf(fs[..k]), fs[k])
    ensures All(fs[..k + 1], 1) == All(fs[..k], 1)
  {
    hide Last, All, HeaderFields, Texts;
    Snoc(fs, k, 1);
    Snoc(fs, k, 2);
    Snoc(fs, k, 3);
    Snoc(fs, k, 4);
    Snoc(fs, k, 5);
    Snoc(fs, k, 6);
    Snoc(fs, k, 8);
    Snoc(fs, k, 9);
    Snoc(fs, k, 10);
    TextsSnoc(All(fs[..k], 8), fs[k]);
  }

  lemma TextsSnoc(fs: seq<W.Field>, f: W.Field)
    ensures Texts(fs + [f]) == Texts(fs) + [Text(f.data)]
  {}

  lemma NoStatusYet()
    ensures StatusOf([]) == Status("", "", 0, "", 0, 0, [], 0, false)
  {}

  method GrpcStatus(raw: Bytes) returns (r: Reply<Status>)
    ensures r == StatusAnswer(raw)
  {
    hide StatusOf, W.Fields, WithField;
    var msg := GrpcMessage(raw);
    if !msg.Ok? { return StatusAnswer(raw); }
    var top := W.ParseFields(msg.value);
    if top.Failed? { return Undecodable(top.why); }
    if top.Faulted? { return Fault; }
    var fs := top.out;
    var es := Status("", "", 0, "", 0, 0, [], 0, false);
    NoStatusYet();
    for k := 0 to |fs|
      invariant es == StatusOf(fs[..k])
      invariant HeadersReadable(fs[..k])
    {
      var f := fs[k];
      match f.num {
        case 1 =>
          var hf := W.ParseFields(f.data);
          HeaderStep(fs, k);
          if hf.Faulted? { return Fault; }
          var id := HeaderMember(hf.out, es.memberID);
          es := es.(memberID := id);
        case _ =>
          OtherFieldsGrow(fs, k);
          es := WithField(es, f);
      }
    }
    assert fs[..|fs|] == fs;
    if es.version == "" && es.raftTerm == 0 { return EmptyStatus; }
    return Ok(es);
  }

  // ----- alarms

  datatype Alarm = Alarm(memberID: string, kind: string)

  function AlarmName(last: seq<W.Field>): string
  {
    if last == [] then ""
    else if last[0].v == 1 then "NOSPACE"
    else if last[0].v == 2 then "CORRUPT"
    else Decimal(last[0].v)
  }

  /** AlarmMember{memberID=1, alarm=2}, as far as it is readable. */
  function AlarmOf(fs: seq<W.Field>): Alarm
  {
    Alarm(HexOf(Last(fs, 1)), AlarmName(Last(fs, 2)))
  }

  /** The raised alarms of the alarm entries, in order. */
  function Raised(entries: seq<W.Field>): seq<Alarm>
  {
    if entries == [] then []
    else
      var before := Raised(entries[..|entries| - 1]);
      var a := AlarmOf(W.Fields(entries[|entries| - 1].data).out);
      if a.kind != "" && a.kind != "0" then before + [a] else before
  }

  lemma RaisedSnoc(entries: seq<W.Field>, f: W.Field)
    ensures var a := AlarmOf(W.Fields(f.data).out);
      Raised(entries + [f]) == if a.kind != "" && a.kind != "0" then Raised(entries) + [a] else Raised(entries)
  {
    assert (entries + [f])[..|entries|] == entries;
  }

  predicate EntriesReadable(entries: seq<W.Field>)
  {
    forall f | f in entries :: !W.Fields(f.data).Faulted?
  }

  function AlarmsAnswer(raw: Bytes): Reply<seq<Alarm>>
  {
    match GrpcMessage(raw)
    case Ok(msg) =>
      (match W.Fields(msg)
       case Done(top) => if EntriesReadable(All(top, 2)) then Ok(Raised(All(top, 2))) else Fault
       case Failed(_, why) => Undecodable(why)
       case Faulted(_) => Fault)
    case NoReply => NoReply
    case Compressed => Compressed
    case Truncated(have, want) => Truncated(have, want)
    case _ => Fault
  }

  method ParseAlarm(fs: seq<W.Field>) returns (a: Alarm)
    ensures a == AlarmOf(fs)
  {
    a := Alarm("", "");
    for k := 0 to |fs|
      invariant a == AlarmOf(fs[..k])
    {
      var g := fs[k];
      forall num: nat
        ensures Last(fs[..k + 1], num) == if g.num == num then [g] else Last(fs[..k], num)
        ensures All(fs[..k + 1], num) == if g.num == num then All(fs[..k], num) + [g] else All(fs[..k], num)
      {
        Snoc(fs, k, num);
      }
      if g.num == 1 {
        a := a.(memberID := Hex(g.v));
      } else if g.num == 2 {
        if g.v == 1 {
          a := a.(kind := "NOSPACE");
        } else if g.v == 2 {
          a := a.(kind := "CORRUPT");
        } else {
          a := a.(kind := Decimal(g.v));
        }
      }
    }
    assert fs[..|fs|] == fs;
  }

  method GrpcAlarms(raw: Bytes) returns (r: Reply<seq<Alarm>>)
    ensures r == AlarmsAnswer(raw)
  {
    hide AlarmOf, W.Fields;
    var msg := GrpcMessage(raw);
    if !msg.Ok? { return AlarmsAnswer(raw); }
    var top := W.ParseFields(msg.value);
    if top.Failed? { return Undecodable(top.why); }
    if top.Faulted? { return Fault; }
    var fs := top.out;
    var out := [];
    for k := 0 to |fs|
      invariant out == Raised(All(fs[..k], 2))
      invariant EntriesReadable(All(fs[..k], 2))
    {
      var f := fs[k];
      Snoc(fs, k, 2);
      if f.num != 2 { continue; }
      InAll(fs, k);
      RaisedSnoc(All(fs[..k], 2), f);
      var af := W.ParseFields(f.data);
      if af.Faulted? { return Fault; }
      var a := ParseAlarm(af.out);
      if a.kind != "" && a.kind != "0" {
        out := out + [a];
      }
    }
    assert fs[..|fs|] == fs;
    return Ok(out);
  }
}
