/** The generated message codec of testdata/frame.pb.go: Size, MarshalTo, Marshal and the merging Unmarshal. */
module ProtoFrame {
  import opened Bytes
  import opened Varint
  import opened ProtoSkip

  /** The value of a Frame. A missing and an empty payload are not told apart. */
  datatype Msg = Msg(typ: nat, cmd: Bytes, payload: Bytes)

  const EMPTY := Msg(0, [], [])

  predicate ValidMsg(m: Msg) {
    m.typ < U32 && |m.cmd| < MAX_SLICE && |m.payload| < MAX_SLICE
  }

  function TypeBytes(typ: nat): Bytes {
    if typ == 0 then [] else [0x08] + EncodeVarint(typ)
  }

  function BodyBytes(tag: Byte, body: Bytes): Bytes {
    if body == [] then [] else [tag] + (EncodeVarint(|body|) + body)
  }

  function MarshalBytes(m: Msg): Bytes {
    TypeBytes(m.typ) + BodyBytes(0x12, m.cmd) + BodyBytes(0x1a, m.payload)
  }

  /** What Unmarshal leaves in the message, and how it ended. */
  datatype Outcome = Finished(m: Msg) | Failed(m: Msg, err: ProtoError) | Panicked(m: Msg)

  datatype FieldStep = Next(i: nat, m: Msg) | Stop(outcome: Outcome)

  function FieldNumber(wire: nat): int {
    ToInt32(wire / 8)
  }

  /** One round of Unmarshal's loop, at index `i` with `m` decoded so far. */
  function FieldAt(d: Bytes, i: nat, m: Msg): (r: FieldStep)
    requires i < |d| < MAX_SLICE
    ensures r.Next? ==> i < r.i <= |d|
    ensures r.Stop? ==> !r.outcome.Finished?
  {
    var s := Varint64(d, i);
    if !s.Done? then Stop(Failed(m, ScanError(s)))
    else if s.value % 8 == 4 then Stop(Failed(m, EndGroup))
    else if FieldNumber(s.value) <= 0 then Stop(Failed(m, IllegalTag(FieldNumber(s.value))))
    else if FieldNumber(s.value) <= 3 then KnownField(d, s.next, FieldNumber(s.value), s.value % 8, m)
    else UnknownAt(d, i, m)
  }

  /** Fields 1 to 3, with the index already past the tag. */
  function KnownField(d: Bytes, k: nat, field: nat, wireType: nat, m: Msg): (r: FieldStep)
    requires k <= |d| < MAX_SLICE
    requires 1 <= field <= 3
    ensures r.Next? ==> k < r.i <= |d|
    ensures r.Stop? ==> !r.outcome.Finished?
  {
    if wireType != (if field == 1 then 0 else 2) then Stop(Failed(m, WrongWireType(field)))
    else if field == 1 then
      var s := Varint32(d, k);
      var m' := m.(typ := s.value);
      if s.Done? then Next(s.next, m') else Stop(Failed(m', ScanError(s)))
    else
      match Delimited(d, k)
      case NoBody(err) => Stop(Failed(m, err))
      case BodyPanic => Stop(Panicked(m))
      case Body(start, end) =>
        Next(end, if field == 2 then m.(cmd := d[start..end]) else m.(payload := d[start..end]))
  }

  /** Any other field: the index goes back to the tag and skipFrame steps over the record. */
  function UnknownAt(d: Bytes, i: nat, m: Msg): (r: FieldStep)
    requires i < |d| < MAX_SLICE
    ensures r.Next? ==> i < r.i <= |d|
    ensures r.Stop? ==> !r.outcome.Finished?
  {
    match Skip(d[i..])
    case SkipFailed(err) => Stop(Failed(m, err))
    case SkipPanic => Stop(Panicked(m))
    case Skipped(n) =>
      if n < 0 then Stop(Failed(m, InvalidLength))
      else if i + n >= INT64_LIMIT then Stop(Panicked(m))
      else if i + n > |d| then Stop(Failed(m, UnexpectedEof))
      else Next(i + n, m)
  }

  /** A length-delimited body: its bounds in the input, or why there is none. */
  datatype Body = Body(start: nat, end: nat) | NoBody(err: ProtoError) | BodyPanic

  function Delimited(d: Bytes, k: nat): (r: Body)
    requires k <= |d| < MAX_SLICE
    ensures r.Body? ==> k < r.start <= r.end <= |d|
  {
    var s := Varint64(d, k);
    if !s.Done? then NoBody(ScanError(s))
    else if ToInt64(s.value) < 0 then NoBody(InvalidLength)
    else
      var post := AddInt64(s.next, s.value);
      if post < 0 then BodyPanic
      else if post > |d| then NoBody(UnexpectedEof)
      else Body(s.next, post)
  }

  function UnmarshalFrom(d: Bytes, i: nat, m: Msg): Outcome
    requires i <= |d| < MAX_SLICE
    decreases |d| - i
  {
    if i == |d| then Finished(m)
    else
      match FieldAt(d, i, m)
      case Next(j, m') => UnmarshalFrom(d, j, m')
      case Stop(outcome) => outcome
  }

  /** A field as the encoding guide describes it; tags, lengths and values may be non-canonical varints. */
  datatype Field =
    | TypeField(tag: Bytes, value: Bytes)
    | CmdField(tag: Bytes, length: Bytes, body: Bytes)
    | PayloadField(tag: Bytes, length: Bytes, body: Bytes)
    | UnknownField(rec: Record)

  predicate Numbered(tag: Bytes, wireType: nat, number: int) {
    Tagged(tag, wireType) && FieldNumber(Value(tag) % U64) == number
  }

  predicate LengthOf(length: Bytes, body: Bytes) {
    IsVarint(length) && Value(length) % U64 == |body|
  }

  predicate ValidField(f: Field) {
    match f
    case TypeField(tag, value) => Numbered(tag, 0, 1) && IsVarint(value)
    case CmdField(tag, length, body) => Numbered(tag, 2, 2) && LengthOf(length, body)
    case PayloadField(tag, length, body) => Numbered(tag, 2, 3) && LengthOf(length, body)
    case UnknownField(rec) => WellFormed(rec) && FieldNumber(Value(rec.tag) % U64) > 3
  }

  function FieldBytes(f: Field): Bytes {
    match f
    case TypeField(tag, value) => tag + value
    case CmdField(tag, length, body) => tag + (length + body)
    case PayloadField(tag, length, body) => tag + (length + body)
    case UnknownField(rec) => Encode(rec)
  }

  /** Last one wins; unknown fields leave no trace. */
  function Apply(f: Field, m: Msg): Msg {
    match f
    case TypeField(_, value) => m.(typ := Value(value) % U32)
    case CmdField(_, _, body) => m.(cmd := body)
    case PayloadField(_, _, body) => m.(payload := body)
    case UnknownField(_) => m
  }

  function EncodeFields(fs: seq<Field>): Bytes {
    if fs == [] then [] else FieldBytes(fs[0]) + EncodeFields(fs[1..])
  }

  function ApplyAll(fs: seq<Field>, m: Msg): Msg {
    if fs == [] then m else ApplyAll(fs[1..], Apply(fs[0], m))
  }

  predicate ValidFields(fs: seq<Field>) {
    forall k :: 0 <= k < |fs| ==> ValidField(fs[k])
  }

  function TagOf(f: Field): Bytes {
    if f.UnknownField? then f.rec.tag else f.tag
  }

  function KindOf(f: Field): nat
    requires ValidField(f)
  {
    match f
    case TypeField(_, _) => 0
    case UnknownField(rec) => rec.tag[0] % 8
    case _ => 2
  }

  lemma FieldTag(d: Bytes, i: nat, f: Field)
    requires i < |d| < MAX_SLICE
    requires ValidField(f) && At(d, i, FieldBytes(f))
    ensures At(d, i, TagOf(f)) && IsVarint(TagOf(f))
    ensures Varint64(d, i) == Done(Value(TagOf(f)) % U64, i + |TagOf(f)|)
    ensures Value(TagOf(f)) % U64 % 8 == KindOf(f) && KindOf(f) != 4
  {
    match f {
      case TypeField(tag, value) => AtSplit(d, i, tag, value);
      case CmdField(tag, length, body) => AtSplit(d, i, tag, length + body);
      case PayloadField(tag, length, body) => AtSplit(d, i, tag, length + body);
      case UnknownField(rec) => RecordStart(d, i, rec);
    }
    ScanVarintValue(d, i, TagOf(f));
    LowBits(TagOf(f));
  }

  lemma DelimitedForward(d: Bytes, k: nat, length: Bytes, body: Bytes)
    requires k <= |d| < MAX_SLICE
    requires LengthOf(length, body) && At(d, k, length + body)
    ensures Delimited(d, k) == Body(k + |length|, k + |length| + |body|)
    ensures d[k + |length|..k + |length| + |body|] == body
  {
    AtSplit(d, k, length, body);
    ScanVarintValue(d, k, length);
  }

  lemma TypeForward(d: Bytes, k: nat, value: Bytes, m: Msg)
    requires |d| < MAX_SLICE
    requires IsVarint(value) && At(d, k, value)
    ensures KnownField(d, k, 1, 0, m) == Next(k + |value|, m.(typ := Value(value) % U32))
  {
    ScanVarintValue(d, k, value);
  }

  lemma BodyForward(d: Bytes, k: nat, field: nat, length: Bytes, body: Bytes, m: Msg)
    requires |d| < MAX_SLICE
    requires field == 2 || field == 3
    requires LengthOf(length, body) && At(d, k, length + body)
    ensures KnownField(d, k, field, 2, m)
         == Next(k + |length| + |body|, if field == 2 then m.(cmd := body) else m.(payload := body))
  {
    DelimitedForward(d, k, length, body);
  }

  /** A known field whose tag reads as `field` and `wireType`. */
  predicate Shaped(f: Field, field: nat, wireType: nat) {
    match f
    case TypeField(_, value) => field == 1 && wireType == 0 && IsVarint(value)
    case CmdField(_, length, body) => field == 2 && wireType == 2 && LengthOf(length, body)
    case PayloadField(_, length, body) => field == 3 && wireType == 2 && LengthOf(length, body)
    case UnknownField(_) => false
  }

  lemma KnownForward(d: Bytes, i: nat, f: Field, field: nat, wireType: nat, m: Msg)
    requires |d| < MAX_SLICE
    requires Shaped(f, field, wireType) && At(d, i, FieldBytes(f))
    ensures i + |f.tag| <= |d|
    ensures KnownField(d, i + |f.tag|, field, wireType, m) == Next(i + |FieldBytes(f)|, Apply(f, m))
  {
    hide KnownField, Value, IsVarint, LengthOf;
    match f
    case TypeField(tag, value) =>
      AtSplit(d, i, tag, value);
      TypeForward(d, i + |tag|, value, m);
    case CmdField(tag, length, body) =>
      AtSplit(d, i, tag, length + body);
      BodyForward(d, i + |tag|, 2, length, body, m);
    case PayloadField(tag, length, body) =>
      AtSplit(d, i, tag, length + body);
      BodyForward(d, i + |tag|, 3, length, body, m);
  }

  lemma UnknownForward(d: Bytes, i: nat, rec: Record, m: Msg)
    requires i < |d| < MAX_SLICE
    requires WellFormed(rec) && At(d, i, Encode(rec))
    ensures UnknownAt(d, i, m) == Next(i + |Encode(rec)|, m)
  {
    assert d[i..][..|Encode(rec)|] == d[i..i + |Encode(rec)|];
    SkipRecord(d[i..], rec);
  }

  lemma FieldForward(d: Bytes, i: nat, f: Field, m: Msg)
    requires i < |d| < MAX_SLICE
    requires ValidField(f) && At(d, i, FieldBytes(f))
    ensures FieldAt(d, i, m) == Next(i + |FieldBytes(f)|, Apply(f, m))
  {
    hide UnknownAt, KnownField, ScanVarint, IsVarint;
    FieldTag(d, i, f);
    if f.UnknownField? {
      UnknownForward(d, i, f.rec, m);
    } else {
      KnownForward(d, i, f, FieldNumber(Value(f.tag) % U64), KindOf(f), m);
    }
  }

  lemma FieldNonEmpty(f: Field)
    requires ValidField(f)
    ensures FieldBytes(f) != []
  {
  }

  lemma StepForward(d: Bytes, i: nat, f: Field, rest: Bytes, m: Msg)
    requires i <= |d| < MAX_SLICE
    requires ValidField(f) && d[i..] == FieldBytes(f) + rest
    ensures i + |FieldBytes(f)| <= |d| && d[i + |FieldBytes(f)|..] == rest
    ensures UnmarshalFrom(d, i, m) == UnmarshalFrom(d, i + |FieldBytes(f)|, Apply(f, m))
  {
    hide FieldAt, FieldBytes, Apply, ValidField;
    FieldNonEmpty(f);
    var e := FieldBytes(f);
    assert d[i..i + |e|] == d[i..][..|e|] == e;
    assert d[i + |e|..] == d[i..][|e|..];
    FieldForward(d, i, f, m);
  }

  /** Any sequence of well-formed fields decodes, and the message is the fold of the fields over what it held. */
  lemma {:induction false} UnmarshalFields(d: Bytes, i: nat, fs: seq<Field>, m: Msg)
    requires i <= |d| < MAX_SLICE
    requires ValidFields(fs)
    requires d[i..] == EncodeFields(fs)
    ensures UnmarshalFrom(d, i, m) == Finished(ApplyAll(fs, m))
    decreases |fs|
  {
    hide UnmarshalFrom, FieldBytes, Apply, ValidField;
    if fs == [] {
      NoFields(d, m);
    } else {
      var f := fs[0];
      StepForward(d, i, f, EncodeFields(fs[1..]), m);
      UnmarshalFields(d, i + |FieldBytes(f)|, fs[1..], Apply(f, m));
    }
  }

  lemma DelimitedOnly(d: Bytes, k: nat) returns (length: Bytes, body: Bytes)
    requires k <= |d| < MAX_SLICE
    requires Delimited(d, k).Body?
    ensures LengthOf(length, body) && At(d, k, length + body)
    ensures Delimited(d, k) == Body(k + |length|, k + |length| + |body|)
    ensures d[k + |length|..k + |length| + |body|] == body
  {
    length := ScanVarintOnly(d, k, U64);
    var s := Varint64(d, k);
    body := d[s.next..s.next + s.value];
    AtJoin(d, k, length, body);
  }

  lemma KnownOnly(d: Bytes, i: nat, tag: Bytes, m: Msg) returns (f: Field)
    requires i + |tag| <= |d| < MAX_SLICE
    requires At(d, i, tag) && IsVarint(tag)
    requires 1 <= FieldNumber(Value(tag) % U64) <= 3
    requires KnownField(d, i + |tag|, FieldNumber(Value(tag) % U64), tag[0] % 8, m).Next?
    ensures ValidField(f) && At(d, i, FieldBytes(f))
    ensures KnownField(d, i + |tag|, FieldNumber(Value(tag) % U64), tag[0] % 8, m)
         == Next(i + |FieldBytes(f)|, Apply(f, m))
  {
    var k := i + |tag|;
    if FieldNumber(Value(tag) % U64) == 1 {
      var value := ScanVarintOnly(d, k, U32);
      f := TypeField(tag, value);
      AtJoin(d, i, tag, value);
    } else {
      var length, body := DelimitedOnly(d, k);
      AtJoin(d, i, tag, length + body);
      f := if FieldNumber(Value(tag) % U64) == 2 then CmdField(tag, length, body) else PayloadField(tag, length, body);
    }
  }

  lemma UnknownOnly(d: Bytes, i: nat, tag: Bytes, m: Msg) returns (rec: Record)
    requires i < |d| < MAX_SLICE
    requires At(d, i, tag) && IsVarint(tag) && tag[0] % 8 != 4
    requires UnknownAt(d, i, m).Next?
    ensures WellFormed(rec) && At(d, i, Encode(rec)) && Value(rec.tag) % U64 == Value(tag) % U64
    ensures UnknownAt(d, i, m) == Next(i + |Encode(rec)|, m)
  {
    assert d[i] == d[i..i + |tag|][0];
    rec := SkipOnly(d[i..]);
    SameTag(d, i, tag, rec.tag);
    assert d[i..][..|Encode(rec)|] == d[i..i + |Encode(rec)|];
  }

  lemma FieldOnly(d: Bytes, i: nat, m: Msg) returns (f: Field)
    requires i < |d| < MAX_SLICE
    requires FieldAt(d, i, m).Next?
    ensures ValidField(f) && At(d, i, FieldBytes(f))
    ensures FieldAt(d, i, m) == Next(i + |FieldBytes(f)|, Apply(f, m))
  {
    var tag := TagOnly(d, i);
    ScanVarintValue(d, i, tag);
    if FieldNumber(Value(tag) % U64) <= 3 {
      f := KnownOnly(d, i, tag, m);
    } else {
      var rec := UnknownOnly(d, i, tag, m);
      f := UnknownField(rec);
    }
  }

  lemma SameTag(d: Bytes, i: nat, a: Bytes, b: Bytes)
    requires i <= |d|
    requires IsVarint(a) && At(d, i, a)
    requires b != [] && IsVarint(b) && At(d[i..], 0, b)
    ensures Value(a) % U64 == Value(b) % U64
  {
    assert d[i..][..|b|] == d[i..i + |b|];
    ScanVarintValue(d, i, a);
    ScanVarintValue(d, i, b);
  }

  lemma StepOnly(d: Bytes, i: nat, m: Msg) returns (f: Field, j: nat)
    requires i < |d| < MAX_SLICE
    requires UnmarshalFrom(d, i, m).Finished?
    ensures ValidField(f)
    ensures i < j <= |d| && d[i..j] == FieldBytes(f)
    ensures UnmarshalFrom(d, i, m) == UnmarshalFrom(d, j, Apply(f, m))
  {
    hide FieldAt, FieldBytes, Apply, ValidField;
    f := FieldOnly(d, i, m);
    j := i + |FieldBytes(f)|;
  }

  lemma ConsField(f: Field, rest: seq<Field>, m: Msg)
    requires ValidField(f) && ValidFields(rest)
    ensures ValidFields([f] + rest)
    ensures EncodeFields([f] + rest) == FieldBytes(f) + EncodeFields(rest)
    ensures ApplyAll([f] + rest, m) == ApplyAll(rest, Apply(f, m))
  {
    assert ([f] + rest)[1..] == rest;
  }

  /** Conversely Unmarshal accepts nothing but sequences of well-formed fields. */
  lemma {:induction false} UnmarshalOnly(d: Bytes, i: nat, m: Msg) returns (fs: seq<Field>)
    requires i <= |d| < MAX_SLICE
    requires UnmarshalFrom(d, i, m).Finished?
    ensures ValidFields(fs) && d[i..] == EncodeFields(fs)
    ensures UnmarshalFrom(d, i, m) == Finished(ApplyAll(fs, m))
    decreases |d| - i
  {
    hide UnmarshalFrom, EncodeFields, ApplyAll, ValidFields, ValidField, FieldBytes, Apply;
    if i == |d| {
      fs := [];
      NoFields(d, m);
    } else {
      var f, j := StepOnly(d, i, m);
      var rest := UnmarshalOnly(d, j, Apply(f, m));
      fs := [f] + rest;
      ConsField(f, rest, m);
      assert d[i..] == d[i..j] + d[j..];
    }
  }

  lemma NoFields(d: Bytes, m: Msg)
    requires |d| < MAX_SLICE
    ensures ValidFields([]) && EncodeFields([]) == [] && ApplyAll([], m) == m
    ensures UnmarshalFrom(d, |d|, m) == Finished(m)
  {
  }

  /** The fields that MarshalTo writes: those that differ from their default. */
  function FieldsOf(m: Msg): seq<Field> {
    TypeFields(m.typ) + CmdFields(m.cmd) + PayloadFields(m.payload)
  }

  function TypeFields(typ: nat): seq<Field> {
    if typ == 0 then [] else [TypeField([0x08], EncodeVarint(typ))]
  }

  function CmdFields(cmd: Bytes): seq<Field> {
    if cmd == [] then [] else [CmdField([0x12], EncodeVarint(|cmd|), cmd)]
  }

  function PayloadFields(payload: Bytes): seq<Field> {
    if payload == [] then [] else [PayloadField([0x1a], EncodeVarint(|payload|), payload)]
  }

  function Merge(a: Msg, b: Msg): Msg {
    Msg(if b.typ != 0 then b.typ else a.typ,
        if b.cmd != [] then b.cmd else a.cmd,
        if b.payload != [] then b.payload else a.payload)
  }

  lemma {:induction false} EncodeAppend(xs: seq<Field>, ys: seq<Field>)
    ensures EncodeFields(xs + ys) == EncodeFields(xs) + EncodeFields(ys)
    decreases |xs|
  {
    if xs == [] {
      assert xs + ys == ys;
    } else {
      hide FieldBytes;
      assert (xs + ys)[1..] == xs[1..] + ys;
      EncodeAppend(xs[1..], ys);
      Associative(FieldBytes(xs[0]), EncodeFields(xs[1..]), EncodeFields(ys));
    }
  }

  lemma {:induction false} ApplyAppend(xs: seq<Field>, ys: seq<Field>, m: Msg)
    ensures ApplyAll(xs + ys, m) == ApplyAll(ys, ApplyAll(xs, m))
    decreases |xs|
  {
    if xs == [] {
      assert xs + ys == ys;
    } else {
      assert (xs + ys)[1..] == xs[1..] + ys;
      ApplyAppend(xs[1..], ys, Apply(xs[0], m));
    }
  }

  lemma FieldsAppend(xs: seq<Field>, ys: seq<Field>, m: Msg)
    ensures EncodeFields(xs + ys) == EncodeFields(xs) + EncodeFields(ys)
    ensures ApplyAll(xs + ys, m) == ApplyAll(ys, ApplyAll(xs, m))
  {
    EncodeAppend(xs, ys);
    ApplyAppend(xs, ys, m);
  }

  lemma KnownTags()
    ensures Numbered([0x08], 0, 1) && Numbered([0x12], 2, 2) && Numbered([0x1a], 2, 3)
  {
    assert Value([0x08]) == 8 + 128 * Value([0x08][1..]);
    assert Value([0x12]) == 18 + 128 * Value([0x12][1..]);
    assert Value([0x1a]) == 26 + 128 * Value([0x1a][1..]);
  }

  lemma CanonicalLength(body: Bytes)
    requires |body| < MAX_SLICE
    ensures LengthOf(EncodeVarint(|body|), body)
  {
    EncodeIsVarint(|body|);
  }

  lemma TypeFieldsMarshal(typ: nat, base: Msg)
    requires typ < U32
    ensures ValidFields(TypeFields(typ))
    ensures EncodeFields(TypeFields(typ)) == TypeBytes(typ)
    ensures ApplyAll(TypeFields(typ), base) == if typ == 0 then base else base.(typ := typ)
  {
    hide Value, FieldNumber, EncodeVarint, IsVarint;
    KnownTags();
    EncodeIsVarint(typ);
    OneOrNone(TypeFields(typ), base);
  }

  lemma BodyFieldsMarshal(body: Bytes, base: Msg)
    requires |body| < MAX_SLICE
    ensures ValidFields(CmdFields(body)) && ValidFields(PayloadFields(body))
    ensures EncodeFields(CmdFields(body)) == BodyBytes(0x12, body)
    ensures EncodeFields(PayloadFields(body)) == BodyBytes(0x1a, body)
    ensures ApplyAll(CmdFields(body), base) == if body == [] then base else base.(cmd := body)
    ensures ApplyAll(PayloadFields(body), base) == if body == [] then base else base.(payload := body)
  {
    hide Value, FieldNumber, EncodeVarint, IsVarint;
    KnownTags();
    CanonicalLength(body);
    OneOrNone(CmdFields(body), base);
    OneOrNone(PayloadFields(body), base);
  }

  lemma FieldsOfMarshal(m: Msg, base: Msg)
    requires ValidMsg(m)
    ensures ValidFields(FieldsOf(m))
    ensures EncodeFields(FieldsOf(m)) == MarshalBytes(m)
    ensures ApplyAll(FieldsOf(m), base) == Merge(base, m)
  {
    hide EncodeFields, ApplyAll, TypeFields, CmdFields, PayloadFields, ValidField;
    var t, c, p := TypeFields(m.typ), CmdFields(m.cmd), PayloadFields(m.payload);
    TypeFieldsMarshal(m.typ, base);
    BodyFieldsMarshal(m.cmd, ApplyAll(t, base));
    FieldsAppend(t, c, base);
    BodyFieldsMarshal(m.payload, ApplyAll(t + c, base));
    FieldsAppend(t + c, p, base);
  }

  lemma OneOrNone(fs: seq<Field>, m: Msg)
    requires |fs| <= 1
    ensures EncodeFields(fs) == if fs == [] then [] else FieldBytes(fs[0])
    ensures ApplyAll(fs, m) == if fs == [] then m else Apply(fs[0], m)
  {
  }

  /**
   Marshal(a), then any unknown fields, then Marshal(b), decodes over any message to the merge:
   b's fields where they differ from the default, else a's, else what was there.
   */
  lemma UnmarshalMerges(a: Msg, unknown: seq<Field>, b: Msg, base: Msg)
    requires ValidMsg(a) && ValidMsg(b)
    requires ValidFields(unknown) && forall k :: 0 <= k < |unknown| ==> unknown[k].UnknownField?
    requires |MarshalBytes(a) + EncodeFields(unknown) + MarshalBytes(b)| < MAX_SLICE
    ensures UnmarshalFrom(MarshalBytes(a) + EncodeFields(unknown) + MarshalBytes(b), 0, base)
         == Finished(Merge(Merge(base, a), b))
  {
    hide MarshalBytes, EncodeFields, ApplyAll, FieldsOf, Merge, ValidField, UnmarshalFrom;
    var d := MarshalBytes(a) + EncodeFields(unknown) + MarshalBytes(b);
    var fs := FieldsOf(a) + unknown + FieldsOf(b);
    FieldsOfMarshal(a, base);
    UnknownIgnored(unknown, Merge(base, a));
    FieldsOfMarshal(b, Merge(base, a));
    FieldsAppend(FieldsOf(a), unknown, base);
    FieldsAppend(FieldsOf(a) + unknown, FieldsOf(b), base);
    assert d[0..] == d;
    UnmarshalFields(d, 0, fs, base);
  }

  lemma {:induction false} UnknownIgnored(unknown: seq<Field>, m: Msg)
    requires forall k :: 0 <= k < |unknown| ==> unknown[k].UnknownField?
    ensures ApplyAll(unknown, m) == m
  {
    if unknown == [] {
    } else {
      UnknownIgnored(unknown[1..], m);
    }
  }

  lemma NothingMarshalled()
    ensures MarshalBytes(EMPTY) == [] && EncodeFields([]) == []
  {
  }

  /** Unmarshal after Marshal is the identity. */
  lemma UnmarshalMarshal(m: Msg)
    requires ValidMsg(m)
    requires |MarshalBytes(m)| < MAX_SLICE
    ensures UnmarshalFrom(MarshalBytes(m), 0, EMPTY) == Finished(m)
  {
    hide UnmarshalFrom, EncodeVarint, BodyBytes, TypeBytes;
    NothingMarshalled();
    assert MarshalBytes(m) == MarshalBytes(EMPTY) + EncodeFields([]) + MarshalBytes(m);
    UnmarshalMerges(EMPTY, [], m, EMPTY);
  }

  /** Go's copy(a[i:], s) where the room suffices. */
  method CopyInto(a: array<Byte>, i: nat, s: Bytes) returns (n: nat)
    requires i + |s| <= a.Length
    modifies a
    ensures n == |s|
    ensures a[..] == Splice(old(a[..]), i, s)
  {
    forall j | 0 <= j < |s| {
      a[i + j] := s[j];
    }
    n := |s|;
  }

  lemma UnmarshalUnfold(d: Bytes, i: nat, m: Msg)
    requires i < |d| < MAX_SLICE
    ensures UnmarshalFrom(d, i, m) ==
      match FieldAt(d, i, m)
      case Next(j, m') => UnmarshalFrom(d, j, m')
      case Stop(outcome) => outcome
  {
  }

  class Frame {
    var typ: nat
    var cmd: Bytes
    var payload: Bytes

    ghost predicate Valid()
      reads this
    {
      ValidMsg(View())
    }

    function View(): Msg
      reads this
    {
      Msg(typ, cmd, payload)
    }

    constructor ()
      ensures View() == EMPTY
    {
      typ, cmd, payload := 0, [], [];
    }

    /** Size(): the exact length of the encoding. */
    method Size() returns (n: nat)
      ensures n == |MarshalBytes(View())|
    {
      n := 0;
      if typ != 0 {
        var s := Sov(typ);
        n := n + 1 + s;
      }
      var l := |cmd|;
      if l > 0 {
        var s := Sov(l);
        n := n + 1 + l + s;
      }
      l := |payload|;
      if l > 0 {
        var s := Sov(l);
        n := n + 1 + l + s;
      }
    }

    /** A tag byte and the varint after it. */
    static method PutTagged(a: array<Byte>, start: nat, tag: Byte, v: nat) returns (i: nat)
      requires start + 1 + |EncodeVarint(v)| <= a.Length
      modifies a
      ensures i == start + 1 + |EncodeVarint(v)|
      ensures a[..] == Splice(old(a[..]), start, [tag] + EncodeVarint(v))
    {
      a[start] := tag;
      assert a[..] == Splice(old(a[..]), start, [tag]);
      i := PutVarint(a, start + 1, v);
      SpliceTwice(old(a[..]), start, [tag], EncodeVarint(v));
    }

    /** One of MarshalTo's two length-delimited fields. */
    static method PutBody(a: array<Byte>, start: nat, tag: Byte, body: Bytes) returns (i: nat)
      requires start + |BodyBytes(tag, body)| <= a.Length
      modifies a
      ensures i == start + |BodyBytes(tag, body)|
      ensures a[..] == Splice(old(a[..]), start, BodyBytes(tag, body))
    {
      hide Splice, EncodeVarint;
      i := start;
      if |body| > 0 {
        ghost var head, before := [tag] + EncodeVarint(|body|), a[..];
        Associative([tag], EncodeVarint(|body|), body);
        i := PutTagged(a, i, tag, |body|);
        var n := CopyInto(a, i, body);
        i := i + n;
        SpliceTwice(before, start, head, body);
      } else {
        SpliceNothing(a[..], start);
      }
    }

    /** MarshalTo: writes the encoding, in bounds, and nothing past it. */
    method MarshalTo(a: array<Byte>) returns (i: nat)
      requires |MarshalBytes(View())| <= a.Length
      modifies a
      ensures i == |MarshalBytes(View())|
      ensures a[..] == Splice(old(a[..]), 0, MarshalBytes(View()))
    {
      hide Splice, EncodeVarint, BodyBytes;
      ghost var before, t, c, p := a[..], TypeBytes(typ), BodyBytes(0x12, cmd), BodyBytes(0x1a, payload);
      i := 0;
      if typ != 0 {
        i := PutTagged(a, i, 0x08, typ);
      } else {
        SpliceNothing(before, 0);
      }
      i := PutBody(a, i, 0x12, cmd);
      SpliceTwice(before, 0, t, c);
      i := PutBody(a, i, 0x1a, payload);
      SpliceTwice(before, 0, t + c, p);
    }

    method Marshal() returns (b: Bytes)
      ensures b == MarshalBytes(View())
    {
      var size := Size();
      var a := new Byte[size](_ => 0);
      var n := MarshalTo(a);
      b := a[..n];
      assert b == a[..][..n];
    }

    /** Unmarshal: merges the input into the message; `err` is None exactly on the Finished outcome. */
    method Unmarshal(d: Bytes) returns (err: Option<ProtoError>, panicked: bool)
      requires |d| < MAX_SLICE
      modifies this
      ensures UnmarshalFrom(d, 0, old(View())) ==
              if panicked then Panicked(View())
              else if err.Some? then Failed(View(), err.value)
              else Finished(View())
    {
      hide UnmarshalFrom, ScanVarint;
      err, panicked := None, false;
      var i: nat := 0;
      while i < |d|
        invariant i <= |d|
        invariant UnmarshalFrom(d, 0, old(View())) == UnmarshalFrom(d, i, View())
        decreases |d| - i
      {
        UnmarshalUnfold(d, i, View());
        ghost var step := FieldAt(d, i, View());
        var wire := ReadVarint(d, i, U64);
        if !wire.Done? {
          return Some(ScanError(wire)), false;
        }
        assert wire == Varint64(d, i);
        var k := wire.next;
        var fieldNum := FieldNumber(wire.value);
        var wireType := wire.value % 8;
        if wireType == 4 {
          return Some(EndGroup), false;
        }
        if fieldNum <= 0 {
          return Some(IllegalTag(fieldNum)), false;
        }
        assert step == if fieldNum <= 3 then KnownField(d, k, fieldNum, wireType, View()) else UnknownAt(d, i, View());
        match fieldNum
        case 1 =>
          if wireType != 0 {
            return Some(WrongWireType(1)), false;
          }
          var value := ReadVarint(d, k, U32);
          assert value == Varint32(d, k);
          typ := value.value;
          if !value.Done? {
            return Some(ScanError(value)), false;
          }
          i := value.next;
        case 2 =>
          if wireType != 2 {
            return Some(WrongWireType(2)), false;
          }
          var body := ReadDelimited(d, k);
          if body.NoBody? {
            return Some(body.err), false;
          }
          if body.BodyPanic? {
            return None, true;
          }
          cmd := d[body.start..body.end];
          i := body.end;
        case 3 =>
          if wireType != 2 {
            return Some(WrongWireType(3)), false;
          }
          var body := ReadDelimited(d, k);
          if body.NoBody? {
            return Some(body.err), false;
          }
          if body.BodyPanic? {
            return None, true;
          }
          payload := d[body.start..body.end];
          i := body.end;
        case _ =>
          var skippy := SkipFrame(d[i..]);
          if skippy.SkipFailed? {
            return Some(skippy.err), false;
          }
          if skippy.SkipPanic? {
            return None, true;
          }
          if skippy.n < 0 {
            return Some(InvalidLength), false;
          }
          if i + skippy.n >= INT64_LIMIT {
            return None, true;
          }
          if i + skippy.n > |d| {
            return Some(UnexpectedEof), false;
          }
          i := i + skippy.n;
      }
      NoFields(d, View());
    }

    /** The bounds of a length-delimited body, as cases 2 and 3 compute them. */
    static method ReadDelimited(d: Bytes, k: nat) returns (r: Body)
      requires k <= |d| < MAX_SLICE
      ensures r == Delimited(d, k)
    {
      var length := ReadVarint(d, k, U64);
      assert length == Varint64(d, k);
      if !length.Done? {
        return NoBody(ScanError(length));
      }
      if ToInt64(length.value) < 0 {
        return NoBody(InvalidLength);
      }
      var post := AddInt64(length.next, length.value);
      if post < 0 {
        return BodyPanic;
      }
      if post > |d| {
        return NoBody(UnexpectedEof);
      }
      return Body(length.next, post);
    }
  }
}
