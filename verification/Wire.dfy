/** The protobuf wire format as the etcd probe reads it (Protocol Buffers
    Encoding, "Base 128 Varints" and "Message Structure"), with the matching
    encoder. */
module Wire {
  import opened Widths

  type Byte = x: int | 0 <= x < 256
  type Bytes = seq<Byte>

  // ----- varints

  datatype Varint = Varint(value: nat, size: nat) | BadVarint

  /** binary.Uvarint from its i-th byte on: seven bits a byte, least
      significant first, at most ten bytes and one bit in the tenth. */
  function UvarintFrom(b: Bytes, i: nat): (r: Varint)
    ensures r.Varint? ==> 1 <= r.size <= |b|
    decreases |b|
  {
    if b == [] || i >= 10 then BadVarint
    else if b[0] < 128 then (if i == 9 && b[0] > 1 then BadVarint else Varint(b[0], 1))
    else
      match UvarintFrom(b[1..], i + 1)
      case Varint(v, n) => Varint(b[0] - 128 + 128 * v, n + 1)
      case BadVarint => BadVarint
  }

  function Uvarint(b: Bytes): (r: Varint)
    ensures r.Varint? ==> 1 <= r.size <= |b|
  {
    UvarintFrom(b, 0)
  }

  function EncodeVarint(v: nat): (b: Bytes)
    ensures b != []
  {
    if v < 128 then [v] else [128 + v % 128] + EncodeVarint(v / 128)
  }

  /** One more than the largest value the bytes from the i-th on can hold. */
  function Room(i: nat): nat
    decreases 9 - i
  {
    if i >= 9 then 2 else 128 * Room(i + 1)
  }

  lemma RoomOfAll()
    ensures Room(0) == TWO_64
  {
    assert Room(6) == 128 * 128 * 128 * 2;
    assert Room(3) == 128 * 128 * 128 * Room(6);
    assert Room(0) == 128 * 128 * 128 * Room(3);
  }

  lemma {:induction false} VarintFits(b: Bytes, i: nat)
    requires UvarintFrom(b, i).Varint?
    ensures UvarintFrom(b, i).value < Room(i)
    decreases |b|
  {
    if b[0] >= 128 {
      VarintFits(b[1..], i + 1);
    } else if i < 9 {
      assert Room(i) == 128 * Room(i + 1) && Room(i + 1) >= 1 by { RoomPositive(i + 1); }
    }
  }

  lemma RoomPositive(i: nat)
    ensures Room(i) >= 1
    decreases 9 - i
  {
    if i < 9 { RoomPositive(i + 1); }
  }

  lemma {:induction false} VarintDecodes(v: nat, i: nat, rest: Bytes)
    requires i <= 9 && v < Room(i)
    ensures UvarintFrom(EncodeVarint(v) + rest, i) == Varint(v, |EncodeVarint(v)|)
    decreases v
  {
    var b := EncodeVarint(v) + rest;
    if v >= 128 {
      assert b[1..] == EncodeVarint(v / 128) + rest;
      assert i < 9 && v / 128 < Room(i + 1);
      VarintDecodes(v / 128, i + 1, rest);
    }
  }

  /** Every 64-bit value survives its encoding, whatever follows it. */
  lemma VarintRoundTrip(v: nat, rest: Bytes)
    requires v < TWO_64
    ensures Uvarint(EncodeVarint(v) + rest) == Varint(v, |EncodeVarint(v)|)
  {
    RoomOfAll();
    VarintDecodes(v, 0, rest);
  }

  /** What is decoded fits 64 bits and depends on the consumed bytes only. */
  lemma {:induction false} VarintIsLocal(b: Bytes, i: nat, c: Bytes)
    requires UvarintFrom(b, i).Varint?
    requires |c| >= UvarintFrom(b, i).size && c[..UvarintFrom(b, i).size] == b[..UvarintFrom(b, i).size]
    ensures UvarintFrom(c, i) == UvarintFrom(b, i)
    decreases |b|
  {
    var n := UvarintFrom(b, i).size;
    assert c[0] == c[..n][0] == b[..n][0] == b[0];
    if b[0] >= 128 {
      assert c[1..][..n - 1] == c[..n][1..] == b[..n][1..] == b[1..][..n - 1];
      VarintIsLocal(b[1..], i + 1, c[1..]);
    }
  }

  // ----- fixed-width numbers

  function LittleEndian(b: Bytes): nat
  {
    if b == [] then 0 else b[0] + 256 * LittleEndian(b[1..])
  }

  function ToLittleEndian(v: nat, n: nat): (b: Bytes)
    ensures |b| == n
  {
    if n == 0 then [] else [v % 256] + ToLittleEndian(v / 256, n - 1)
  }

  function Pow256(n: nat): nat
  {
    if n == 0 then 1 else 256 * Pow256(n - 1)
  }

  lemma {:induction false} LittleEndianRoundTrip(v: nat, n: nat)
    requires v < Pow256(n)
    ensures LittleEndian(ToLittleEndian(v, n)) == v
  {
    if n > 0 {
      LittleEndianRoundTrip(v / 256, n - 1);
      assert ToLittleEndian(v, n)[1..] == ToLittleEndian(v / 256, n - 1);
    }
  }

  lemma PowersOf256()
    ensures Pow256(4) == TWO_32 && Pow256(8) == TWO_64
  {
    assert Pow256(4) == 256 * 256 * 256 * 256;
    assert Pow256(8) == 256 * 256 * 256 * 256 * Pow256(4);
  }

  // ----- fields

  /** One decoded field: a number, and a value or a run of bytes. */
  datatype Field = Field(num: nat, v: nat, data: Bytes)

  datatype FieldError = BadKey | BadVarintValue | ShortFixed64 | BadLength | ShortFixed32 | UnsupportedType(kind: nat)

  /** The first field of a message. SliceFault is the run-time stop at a
      length of 2^63 or more, which the signed length test lets through. */
  datatype First = Next(f: Field, size: nat) | Stop(why: FieldError) | SliceFault

  function DecodeFirst(b: Bytes): (r: First)
    ensures r.Next? ==> 1 <= r.size <= |b|
  {
    match Uvarint(b)
    case BadVarint => Stop(BadKey)
    case Varint(key, n) => DecodeValue(key / 8, key % 8, n, b[n..])
  }

  function DecodeValue(num: nat, kind: nat, n: nat, b: Bytes): (r: First)
    ensures r.Next? ==> n <= r.size <= n + |b|
  {
    if kind == 0 then
      match Uvarint(b)
      case BadVarint => Stop(BadVarintValue)
      case Varint(v, k) => Next(Field(num, v, []), n + k)
    else if kind == 1 then
      if |b| < 8 then Stop(ShortFixed64) else Next(Field(num, LittleEndian(b[..8]), []), n + 8)
    else if kind == 2 then
      match Uvarint(b)
      case BadVarint => Stop(BadLength)
      case Varint(l, k) =>
        if l >= TWO_63 then SliceFault
        else if l > |b| - k then Stop(BadLength)
        else Next(Field(num, 0, b[k..k + l]), n + k + l)
    else if kind == 5 then
      if |b| < 4 then Stop(ShortFixed32) else Next(Field(num, LittleEndian(b[..4]), []), n + 4)
    else Stop(UnsupportedType(kind))
  }

  /** All fields up to the end or the first undecodable one. */
  datatype Outcome = Done(out: seq<Field>) | Failed(out: seq<Field>, why: FieldError) | Faulted(out: seq<Field>)

  function After(done: seq<Field>, r: Outcome): Outcome
  {
    r.(out := done + r.out)
  }

  function Fields(b: Bytes): Outcome
    decreases |b|
  {
    if b == [] then Done([])
    else
      match DecodeFirst(b)
      case Next(f, size) => After([f], Fields(b[size..]))
      case Stop(why) => Failed([], why)
      case SliceFault => Faulted([])
  }

  lemma AfterAssociative(x: seq<Field>, y: seq<Field>, r: Outcome)
    ensures After(x, After(y, r)) == After(x + y, r)
  {
    assert x + (y + r.out) == (x + y) + r.out;
  }

  lemma NothingAfter(r: Outcome)
    ensures After([], r) == r
  {
    assert [] + r.out == r.out;
  }

  lemma FirstStep(b: Bytes, f: Field, size: nat)
    requires b != [] && DecodeFirst(b) == Next(f, size)
    ensures Fields(b) == After([f], Fields(b[size..]))
  {}

  lemma StopHere(out: seq<Field>, message: Bytes, b: Bytes)
    requires b != [] && After(out, Fields(b)) == Fields(message)
    ensures DecodeFirst(b).Stop? ==> Fields(message) == Failed(out, DecodeFirst(b).why)
    ensures DecodeFirst(b).SliceFault? ==> Fields(message) == Faulted(out)
  {
    hide DecodeFirst;
    assert out + [] == out;
  }

  lemma NothingLeft(out: seq<Field>, message: Bytes)
    requires After(out, Fields([])) == Fields(message)
    ensures Fields(message) == Done(out)
  {
    assert out + [] == out;
  }

  lemma OneMoreField(out: seq<Field>, message: Bytes, b: Bytes, size: nat, f: Field)
    requires b != [] && After(out, Fields(b)) == Fields(message)
    requires DecodeFirst(b) == Next(f, size)
    ensures After(out + [f], Fields(b[size..])) == Fields(message)
  {
    hide DecodeFirst;
    FirstStep(b, f, size);
    AfterAssociative(out, [f], Fields(b[size..]));
  }

  /** The decoding loop: the unread rest of the message shrinks, the fields
      found so far grow. */
  method ParseFields(message: Bytes) returns (r: Outcome)
    ensures r == Fields(message)
  {
    hide Uvarint, Fields;
    var b, out := message, [];
    NothingAfter(Fields(message));
    while |b| > 0
      invariant After(out, Fields(b)) == Fields(message)
      decreases |b|
    {
      var key := Uvarint(b);
      if key.BadVarint? {
        StopHere(out, message, b);
        return Failed(out, BadKey);
      }
      var n := key.size;
      var rest := b[n..];
      var f, size := Field(key.value / 8, 0, []), n;
      match key.value % 8 {
        case 0 =>
          var v := Uvarint(rest);
          if v.BadVarint? {
            StopHere(out, message, b);
            return Failed(out, BadVarintValue);
          }
          f, size := f.(v := v.value), n + v.size;
        case 1 =>
          if |rest| < 8 {
            StopHere(out, message, b);
            return Failed(out, ShortFixed64);
          }
          f, size := f.(v := LittleEndian(rest[..8])), n + 8;
        case 2 =>
          var l := Uvarint(rest);
          if l.BadVarint? || (l.value < TWO_63 && l.value > |rest| - l.size) {
            StopHere(out, message, b);
            return Failed(out, BadLength);
          }
          if l.value >= TWO_63 {
            StopHere(out, message, b);
            return Faulted(out);
          }
          f, size := f.(data := rest[l.size..l.size + l.value]), n + l.size + l.value;
        case 5 =>
          if |rest| < 4 {
            StopHere(out, message, b);
            return Failed(out, ShortFixed32);
          }
          f, size := f.(v := LittleEndian(rest[..4])), n + 4;
        case kind =>
          StopHere(out, message, b);
          return Failed(out, UnsupportedType(kind));
      }
      OneMoreField(out, message, b, size, f);
      out, b := out + [f], b[size..];
    }
    NothingLeft(out, message);
    return Done(out);
  }

  // ----- the encoder

  datatype WireField =
    | VarintField(num: nat, v: nat)
    | Fixed64Field(num: nat, v: nat)
    | BytesField(num: nat, data: Bytes)
    | Fixed32Field(num: nat, v: nat)

  /** Encodable: the key fits 64 bits and the value its width. */
  predicate Encodable(w: WireField)
  {
    w.num < TWO_61 &&
    match w
    case VarintField(_, v) => v < TWO_64
    case Fixed64Field(_, v) => v < TWO_64
    case BytesField(_, data) => |data| < TWO_63
    case Fixed32Field(_, v) => v < TWO_32
  }

  function Encode(w: WireField): Bytes
  {
    match w
    case VarintField(num, v) => EncodeVarint(8 * num) + EncodeVarint(v)
    case Fixed64Field(num, v) => EncodeVarint(8 * num + 1) + ToLittleEndian(v, 8)
    case BytesField(num, data) => EncodeVarint(8 * num + 2) + EncodeVarint(|data|) + data
    case Fixed32Field(num, v) => EncodeVarint(8 * num + 5) + ToLittleEndian(v, 4)
  }

  function EncodeAll(ws: seq<WireField>): Bytes
  {
    if ws == [] then [] else Encode(ws[0]) + EncodeAll(ws[1..])
  }

  /** What the decoder keeps of a field: it forgets the wire type. */
  function Kept(w: WireField): Field
  {
    match w
    case VarintField(num, v) => Field(num, v, [])
    case Fixed64Field(num, v) => Field(num, v, [])
    case BytesField(num, data) => Field(num, 0, data)
    case Fixed32Field(num, v) => Field(num, v, [])
  }

  function KeptAll(ws: seq<WireField>): (fs: seq<Field>)
    ensures |fs| == |ws|
    ensures forall k :: 0 <= k < |ws| ==> fs[k] == Kept(ws[k])
  {
    seq(|ws|, k requires 0 <= k < |ws| => Kept(ws[k]))
  }

  function Kind(w: WireField): nat
  {
    match w
    case VarintField(_, _) => 0
    case Fixed64Field(_, _) => 1
    case BytesField(_, _) => 2
    case Fixed32Field(_, _) => 5
  }

  function Payload(w: WireField): Bytes
  {
    match w
    case VarintField(_, v) => EncodeVarint(v)
    case Fixed64Field(_, v) => ToLittleEndian(v, 8)
    case BytesField(_, data) => EncodeVarint(|data|) + data
    case Fixed32Field(_, v) => ToLittleEndian(v, 4)
  }

  lemma FixedRoundTrip(v: nat, n: nat, rest: Bytes)
    requires v < Pow256(n)
    ensures LittleEndian((ToLittleEndian(v, n) + rest)[..n]) == v
  {
    assert (ToLittleEndian(v, n) + rest)[..n] == ToLittleEndian(v, n);
    LittleEndianRoundTrip(v, n);
  }

  lemma DataRoundTrip(data: Bytes, rest: Bytes)
    requires |data| < TWO_63
    ensures var b, k := EncodeVarint(|data|) + data + rest, |EncodeVarint(|data|)|;
      Uvarint(b) == Varint(|data|, k) && k + |data| <= |b| && b[k..k + |data|] == data
  {
    hide EncodeVarint, Uvarint;
    VarintRoundTrip(|data|, data + rest);
    assert EncodeVarint(|data|) + data + rest == EncodeVarint(|data|) + (data + rest);
  }

  lemma ValueRoundTrip(w: WireField, n: nat, rest: Bytes)
    requires Encodable(w)
    ensures DecodeValue(w.num, Kind(w), n, Payload(w) + rest) == Next(Kept(w), n + |Payload(w)|)
  {
    hide Uvarint, EncodeVarint, LittleEndian, ToLittleEndian;
    PowersOf256();
    match w
    case VarintField(_, v) => VarintRoundTrip(v, rest);
    case Fixed64Field(_, v) => FixedRoundTrip(v, 8, rest);
    case BytesField(_, data) => DataRoundTrip(data, rest);
    case Fixed32Field(_, v) => FixedRoundTrip(v, 4, rest);
  }

  lemma EncodeSplits(w: WireField)
    ensures Encode(w) == EncodeVarint(8 * w.num + Kind(w)) + Payload(w)
  {}

  lemma FirstRoundTrip(w: WireField, rest: Bytes)
    requires Encodable(w)
    ensures DecodeFirst(Encode(w) + rest) == Next(Kept(w), |Encode(w)|)
  {
    hide DecodeValue, Payload, Encode, Kept, EncodeVarint;
    var key := 8 * w.num + Kind(w);
    var head := EncodeVarint(key);
    EncodeSplits(w);
    assert Encode(w) + rest == head + (Payload(w) + rest);
    VarintRoundTrip(key, Payload(w) + rest);
    assert (Encode(w) + rest)[|head|..] == Payload(w) + rest;
    ValueRoundTrip(w, |head|, rest);
  }

  lemma EncodedFirst(ws: seq<WireField>, rest: Bytes)
    requires ws != []
    ensures EncodeAll(ws) + rest == Encode(ws[0]) + (EncodeAll(ws[1..]) + rest)
  {
    hide Encode;
  }

  lemma KeptFirst(ws: seq<WireField>)
    requires ws != []
    ensures KeptAll(ws) == [Kept(ws[0])] + KeptAll(ws[1..])
  {
    hide Kept;
  }

  /** Decoding an encoded message gives back every field, in order, and goes
      on with whatever follows. */
  lemma {:induction false} FieldsRoundTrip(ws: seq<WireField>, rest: Bytes)
    requires forall w :: w in ws ==> Encodable(w)
    ensures Fields(EncodeAll(ws) + rest) == After(KeptAll(ws), Fields(rest))
  {
    hide DecodeFirst, Encode, EncodeAll, Kept, KeptAll, Encodable, Fields;
    if ws == [] {
      NothingEncoded(ws, rest);
    } else {
      var tail := EncodeAll(ws[1..]) + rest;
      FieldsRoundTrip(ws[1..], rest);
      FirstRoundTrip(ws[0], tail);
      EncodedFirst(ws, rest);
      FieldsStep(Encode(ws[0]), tail, Kept(ws[0]));
      AfterAssociative([Kept(ws[0])], KeptAll(ws[1..]), Fields(rest));
      KeptFirst(ws);
    }
  }

  lemma NothingEncoded(ws: seq<WireField>, rest: Bytes)
    requires ws == []
    ensures Fields(EncodeAll(ws) + rest) == After(KeptAll(ws), Fields(rest))
  {
    assert EncodeAll(ws) + rest == rest;
    NothingAfter(Fields(rest));
  }

  lemma FieldsStep(first: Bytes, tail: Bytes, f: Field)
    requires DecodeFirst(first + tail) == Next(f, |first|)
    ensures Fields(first + tail) == After([f], Fields(tail))
  {
    hide DecodeFirst;
    assert (first + tail)[|first|..] == tail;
    FirstStep(first + tail, f, |first|);
  }

  lemma MessageRoundTrip(ws: seq<WireField>)
    requires forall w :: w in ws ==> Encodable(w)
    ensures Fields(EncodeAll(ws)) == Done(KeptAll(ws))
  {
    FieldsRoundTrip(ws, []);
    assert EncodeAll(ws) + [] == EncodeAll(ws) && KeptAll(ws) + [] == KeptAll(ws);
  }

  // ----- locality and composition

  /** A decoded field depends on the bytes it consumed only. */
  lemma FirstIsLocal(b: Bytes, c: Bytes)
    requires DecodeFirst(b).Next?
    requires |c| >= DecodeFirst(b).size && c[..DecodeFirst(b).size] == b[..DecodeFirst(b).size]
    ensures DecodeFirst(c) == DecodeFirst(b)
  {
    var size := DecodeFirst(b).size;
    var n := Uvarint(b).size;
    assert c[..n] == c[..size][..n] == b[..size][..n] == b[..n];
    VarintIsLocal(b, 0, c);
    var x, y := b[n..], c[n..];
    var m := size - n;
    assert x[..m] == b[..size][n..] == c[..size][n..] == y[..m];
    ValueIsLocal(Uvarint(b).value / 8, Uvarint(b).value % 8, n, x, y);
  }

  lemma ValueIsLocal(num: nat, kind: nat, n: nat, x: Bytes, y: Bytes)
    requires DecodeValue(num, kind, n, x).Next?
    requires var m := DecodeValue(num, kind, n, x).size - n; |y| >= m && y[..m] == x[..m]
    ensures DecodeValue(num, kind, n, y) == DecodeValue(num, kind, n, x)
  {
    var m := DecodeValue(num, kind, n, x).size - n;
    if kind == 0 || kind == 2 {
      var k := Uvarint(x).size;
      assert y[..k] == y[..m][..k] == x[..m][..k] == x[..k];
      VarintIsLocal(x, 0, y);
      if kind == 2 {
        var l := Uvarint(x).value;
        assert x[k..k + l] == x[..m][k..] == y[..m][k..] == y[k..k + l];
      }
    }
  }

  lemma Regroup(a: Bytes, b: Bytes, n: nat)
    requires n <= |a|
    ensures a + b == a[..n] + (a[n..] + b)
  {}

  /** Decoding is compositional: a decodable prefix keeps its fields whatever
      is appended, and decoding goes on with the rest as a message of its own. */
  lemma {:induction false} FieldsCompose(a: Bytes, b: Bytes)
    requires Fields(a).Done?
    ensures Fields(a + b) == After(Fields(a).out, Fields(b))
    decreases |a|
  {
    hide DecodeFirst;
    if a == [] {
      assert a + b == b;
      NothingAfter(Fields(b));
    } else {
      var f, size := DecodeFirst(a).f, DecodeFirst(a).size;
      var tail := a[size..];
      FieldsCompose(tail, b);
      assert (a + b)[..size] == a[..size];
      FirstIsLocal(a, a + b);
      Regroup(a, b, size);
      FieldsStep(a[..size], tail + b, f);
      AfterAssociative([f], Fields(tail).out, Fields(b));
    }
  }

  function Flatten(spans: seq<Bytes>): Bytes
  {
    if spans == [] then [] else spans[0] + Flatten(spans[1..])
  }

  /** spans cut b into non-empty pieces, each of which is one field of fs. */
  ghost predicate Tiles(spans: seq<Bytes>, b: Bytes, fs: seq<Field>)
  {
    && |spans| == |fs| && Flatten(spans) == b
    && forall k :: 0 <= k < |spans| ==> DecodeFirst(spans[k]) == Next(fs[k], |spans[k]|)
  }

  lemma {:induction false} DoneTiles(b: Bytes) returns (spans: seq<Bytes>)
    requires Fields(b).Done?
    ensures Tiles(spans, b, Fields(b).out)
    decreases |b|
  {
    hide DecodeFirst;
    if b == [] {
      spans := [];
    } else {
      var size := DecodeFirst(b).size;
      var tail := DoneTiles(b[size..]);
      FirstIsLocal(b, b[..size]);
      spans := [b[..size]] + tail;
      assert b == b[..size] + b[size..];
      assert spans[1..] == tail;
    }
  }

  lemma {:induction false} TilesDecode(spans: seq<Bytes>, b: Bytes, fs: seq<Field>)
    requires Tiles(spans, b, fs)
    ensures Fields(b) == Done(fs)
  {
    hide DecodeFirst;
    if spans != [] {
      var first, rest := spans[0], Flatten(spans[1..]);
      assert (first + rest)[..|first|] == first[..|first|] && (first + rest)[|first|..] == rest;
      FirstIsLocal(first, first + rest);
      TilesDecode(spans[1..], rest, fs[1..]);
      assert [fs[0]] + fs[1..] == fs;
    }
  }

  /** Success means exactly that the message is cut, without a byte left
      over, into non-empty spans that are its fields in order. */
  lemma SuccessIsTiling(b: Bytes, fs: seq<Field>)
    ensures Fields(b) == Done(fs) <==> exists spans :: Tiles(spans, b, fs)
  {
    if Fields(b) == Done(fs) {
      var spans := DoneTiles(b);
    }
    if spans :| Tiles(spans, b, fs) {
      TilesDecode(spans, b, fs);
    }
  }

  /** On failure the fields reported are those of the longest decodable run
      of whole fields, and what follows it is the field at fault. */
  lemma {:induction false} FailurePoint(b: Bytes) returns (n: nat)
    requires !Fields(b).Done?
    ensures n < |b| && Fields(b[..n]) == Done(Fields(b).out)
    ensures Fields(b).Failed? ==> DecodeFirst(b[n..]) == Stop(Fields(b).why)
    ensures Fields(b).Faulted? ==> DecodeFirst(b[n..]) == SliceFault
    decreases |b|
  {
    hide DecodeFirst;
    match DecodeFirst(b)
    case Next(f, size) =>
      var m := FailurePoint(b[size..]);
      n := size + m;
      assert b[size..][m..] == b[n..];
      assert b[..n][..size] == b[..size];
      FirstIsLocal(b, b[..n]);
      assert b[..n][size..] == b[size..][..m];
    case _ =>
      n := 0;
  }

  // ----- fields cut short, and types there are no fields of

  lemma {:induction false} CutVarint(v: nat, m: nat, i: nat)
    requires m < |EncodeVarint(v)|
    ensures UvarintFrom(EncodeVarint(v)[..m], i).BadVarint?
    decreases v
  {
    var b := EncodeVarint(v)[..m];
    if m > 0 && i < 10 {
      assert v >= 128 && b[0] == 128 + v % 128;
      assert b[1..] == EncodeVarint(v / 128)[..m - 1];
      CutVarint(v / 128, m - 1, i + 1);
    }
  }

  /** What is wrong when the value of a field is cut short. */
  function ValueError(w: WireField): FieldError
  {
    match w
    case VarintField(_, _) => BadVarintValue
    case Fixed64Field(_, _) => ShortFixed64
    case BytesField(_, _) => BadLength
    case Fixed32Field(_, _) => ShortFixed32
  }

  lemma CutValue(w: WireField, n: nat, m: nat)
    requires Encodable(w) && m < |Payload(w)|
    ensures DecodeValue(w.num, Kind(w), n, Payload(w)[..m]) == Stop(ValueError(w))
  {
    match w
    case VarintField(_, v) =>
      CutVarint(v, m, 0);
    case BytesField(_, data) =>
      var head := EncodeVarint(|data|);
      if m < |head| {
        assert Payload(w)[..m] == head[..m];
        CutVarint(|data|, m, 0);
      } else {
        assert Payload(w)[..m] == head + data[..m - |head|];
        VarintRoundTrip(|data|, data[..m - |head|]);
      }
    case _ =>
  }

  /** An encoded field cut short is a bad key when the cut is in the key, and
      otherwise the error of its wire type. */
  lemma CutField(w: WireField, m: nat)
    requires Encodable(w) && m < |Encode(w)|
    ensures DecodeFirst(Encode(w)[..m]) ==
      Stop(if m < |EncodeVarint(8 * w.num + Kind(w))| then BadKey else ValueError(w))
  {
    hide DecodeValue, Payload, Encode, EncodeVarint, UvarintFrom;
    var key := 8 * w.num + Kind(w);
    var head := EncodeVarint(key);
    EncodeSplits(w);
    if m < |head| {
      assert Encode(w)[..m] == head[..m];
      CutVarint(key, m, 0);
    } else {
      var rest := Payload(w)[..m - |head|];
      assert Encode(w)[..m] == head + rest;
      VarintRoundTrip(key, rest);
      assert (head + rest)[|head|..] == rest;
      CutValue(w, |head|, m - |head|);
    }
  }

  /** Groups and the two unassigned wire types are not supported. */
  lemma UnknownKind(num: nat, kind: nat, rest: Bytes)
    requires num < TWO_61 && kind in {3, 4, 6, 7}
    ensures DecodeFirst(EncodeVarint(8 * num + kind) + rest) == Stop(UnsupportedType(kind))
  {
    hide EncodeVarint, UvarintFrom;
    VarintRoundTrip(8 * num + kind, rest);
  }

  // ----- lengths of 2^63 or more

  /** b starts with a length-delimited field whose length is negative as an
      int64. */
  predicate HugeLength(b: Bytes)
  {
    var key := Uvarint(b);
    && key.Varint? && key.value % 8 == 2
    && Uvarint(b[key.size..]).Varint? && Uvarint(b[key.size..]).value >= TWO_63
  }

  lemma HugeLengthIsFault(b: Bytes)
    ensures DecodeFirst(b) == SliceFault <==> HugeLength(b)
    ensures HugeLength(b) ==> Fields(b) == Faulted([])
  {
    hide Uvarint;
  }

  /** The decoder faults, where its contract has an error, exactly when a run
      of whole fields ends at a length of 2^63 or more. */
  lemma FaultedIff(b: Bytes)
    ensures Fields(b).Faulted? <==> exists n: nat :: n < |b| && Fields(b[..n]).Done? && HugeLength(b[n..])
  {
    hide HugeLength, DecodeFirst, Fields;
    if Fields(b).Faulted? {
      var n := FailurePoint(b);
      HugeLengthIsFault(b[n..]);
    }
    if n: nat :| n < |b| && Fields(b[..n]).Done? && HugeLength(b[n..]) {
      HugeLengthIsFault(b[n..]);
      FieldsCompose(b[..n], b[n..]);
      assert b == b[..n] + b[n..];
    }
  }

  /** A length-delimited field announcing l bytes. */
  function Announced(num: nat, l: nat): Bytes
  {
    EncodeVarint(8 * num + 2) + EncodeVarint(l)
  }

  lemma AnnouncedFaultsIff(num: nat, l: nat, rest: Bytes)
    requires num < TWO_61 && l < TWO_64
    ensures DecodeFirst(Announced(num, l) + rest) == SliceFault <==> l >= 0x8000_0000_0000_0000
  {
    hide EncodeVarint, Uvarint;
    var head := EncodeVarint(8 * num + 2);
    assert Announced(num, l) + rest == head + (EncodeVarint(l) + rest);
    VarintRoundTrip(8 * num + 2, EncodeVarint(l) + rest);
    assert (Announced(num, l) + rest)[|head|..] == EncodeVarint(l) + rest;
    VarintRoundTrip(l, rest);
  }

  /** Any message can be made to fault after its last field. */
  lemma HugeLengthFaults(ws: seq<WireField>, num: nat, l: nat, rest: Bytes)
    requires forall w :: w in ws ==> Encodable(w)
    requires num < TWO_61 && TWO_63 <= l < TWO_64
    ensures Fields(EncodeAll(ws) + (Announced(num, l) + rest)) == Faulted(KeptAll(ws))
  {
    hide DecodeFirst, EncodeAll, Encodable;
    AnnouncedFaultsIff(num, l, rest);
    FieldsRoundTrip(ws, Announced(num, l) + rest);
    assert Fields(Announced(num, l) + rest) == Faulted([]);
    assert KeptAll(ws) + [] == KeptAll(ws);
  }

  /** The number of n groups of seven ones below one more. */
  ghost function Ones(n: nat): nat
  {
    if n == 0 then 1 else 128 * Ones(n - 1) + 127
  }

  ghost function Full(n: nat): (b: Bytes)
    ensures |b| == n && forall k :: 0 <= k < n ==> b[k] == 255
  {
    seq(n, _ => 255)
  }

  lemma {:induction false} OnesSpelled(n: nat)
    ensures EncodeVarint(Ones(n)) == Full(n) + [1]
  {
    if n > 0 {
      OnesSpelled(n - 1);
      assert Full(n) == [255] + Full(n - 1);
      assert Ones(n) / 128 == Ones(n - 1) && Ones(n) % 128 == 127;
    }
  }

  lemma AllOnes()
    ensures EncodeVarint(TWO_64 - 1) == [255, 255, 255, 255, 255, 255, 255, 255, 255, 1]
  {
    hide EncodeVarint;
    OnesSpelled(9);
    assert Ones(9) == TWO_64 - 1;
    assert Full(9) + [1] == [255, 255, 255, 255, 255, 255, 255, 255, 255, 1];
  }

  /** For one, field 1 announcing 2^64 - 1 bytes. */
  lemma ElevenBytesFault()
    ensures Fields([10, 255, 255, 255, 255, 255, 255, 255, 255, 255, 1]) == Faulted([])
  {
    AllOnes();
    assert EncodeVarint(8 * 1 + 2) == [10];
    var b := Announced(1, TWO_64 - 1);
    assert b == [10, 255, 255, 255, 255, 255, 255, 255, 255, 255, 1];
    hide EncodeVarint, Fields, Announced;
    HugeLengthFaults([], 1, TWO_64 - 1, []);
    assert EncodeAll([]) + (b + []) == b;
    assert KeptAll([]) == [];
  }
}
