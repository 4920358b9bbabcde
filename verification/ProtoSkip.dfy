/** skipFrame of testdata/frame.pb.go: stepping over one field record that the message does not know. */
module ProtoSkip {
  import opened Bytes
  import opened Varint

  /** No Go byte slice is longer (the allocation limit of 64-bit targets). */
  const MAX_SLICE: nat := 0x1_0000_0000_0000

  datatype ProtoError =
    | IntOverflow
    | UnexpectedEof
    | InvalidLength
    | EndGroup
    | IllegalTag(fieldNum: int)
    | WrongWireType(field: nat)
    | IllegalWireType(wireType: nat)

  /** `n` is negative when a declared length wrapped the index around. Panics are outcomes, not preconditions. */
  datatype SkipResult = Skipped(n: int) | SkipFailed(err: ProtoError) | SkipPanic

  function ScanError(s: Scan): ProtoError {
    if s.Truncated? then UnexpectedEof else IntOverflow
  }

  function Skip(d: Bytes): (r: SkipResult)
    requires |d| < MAX_SLICE
    ensures r.Skipped? ==> r.n != 0 && r.n < INT64_LIMIT
    decreases |d|, 2, 0
  {
    if d == [] then SkipPanic
    else
      match Varint64(d, 0)
      case Overlong(_) => SkipFailed(IntOverflow)
      case Truncated(_) => SkipFailed(UnexpectedEof)
      case Done(wire, k) =>
        if wire % 8 == 3 then SkipGroup(d, k) else SkipScalar(d, k, wire % 8)
  }

  /** What follows a tag of any wire type but the group's. */
  function SkipScalar(d: Bytes, k: nat, wireType: nat): (r: SkipResult)
    requires |d| < MAX_SLICE
    requires 1 <= k <= |d|
    ensures r.Skipped? ==> r.n != 0 && r.n < INT64_LIMIT
  {
    match wireType
    case 0 =>
      var s := Varint64(d, k);
      if s.Done? then Skipped(s.next) else SkipFailed(ScanError(s))
    case 1 => Skipped(k + 8)
    case 2 =>
      var s := Varint64(d, k);
      if !s.Done? then SkipFailed(ScanError(s))
      else if ToInt64(s.value) < 0 then SkipFailed(InvalidLength)
      else Skipped(AddInt64(s.next, s.value))
    case 4 => Skipped(k)
    case 5 => Skipped(k + 4)
    case t => SkipFailed(IllegalWireType(t))
  }

  /** The inner loop of a group, from index `i` on. */
  function SkipGroup(d: Bytes, i: nat): (r: SkipResult)
    requires |d| < MAX_SLICE
    requires i >= 1
    ensures r.Skipped? ==> 0 < r.n <= |d|
    decreases |d|, 1, if i <= |d| then |d| - i else 0
  {
    if i > |d| then SkipFailed(UnexpectedEof)
    else
      match Varint64(d, i)
      case Overlong(_) => SkipFailed(IntOverflow)
      case Truncated(_) => SkipFailed(UnexpectedEof)
      case Done(wire, k) =>
        if wire % 8 == 4 then Skipped(k)
        else
          var inner := Skip(d[i..]);
          if !inner.Skipped? then inner
          else if inner.n < 0 || i + inner.n >= INT64_LIMIT then SkipPanic
          else SkipGroup(d, i + inner.n)
  }

  /** Two odd inputs: a stray end-group tag is stepped over alone, and no input at all makes skipFrame panic. */
  lemma SkipOddities(d: Bytes, tag: Bytes)
    requires |d| < MAX_SLICE && Tagged(tag, 4) && At(d, 0, tag)
    ensures d != [] && Skip(d) == Skipped(|tag|)
    ensures Skip([]) == SkipPanic
  {
    TagScan(d, 0, tag, 4);
  }

  /** The length of a length-delimited field: its tag and its length can be read, and the length is no negative int. */
  predicate DeclaresLength(d: Bytes) {
    && d != [] && d[0] % 8 == 2
    && Varint64(d, 0).Done?
    && var s := Varint64(d, Varint64(d, 0).next); s.Done? && s.value < INT64_LIMIT
  }

  /** Where the declared body would end, before any wrap-around. */
  function DeclaredEnd(d: Bytes): nat
    requires DeclaresLength(d)
  {
    var s := Varint64(d, Varint64(d, 0).next);
    s.next + s.value
  }

  /**
   Exactly when skipFrame succeeds with a negative index: on a length-delimited field whose declared
   end does not fit an int. Nothing else makes it go backwards.
   */
  lemma SkipWrapsExactly(d: Bytes)
    requires |d| < MAX_SLICE
    ensures Skip(d).Skipped? && Skip(d).n < 0 <==> DeclaresLength(d) && DeclaredEnd(d) >= INT64_LIMIT
  {
    hide SkipGroup, ScanVarint;
    if d != [] && Varint64(d, 0).Done? {
      var tag := TagOnly(d, 0);
    }
  }

  /** A bytes field of number 4 that declares the greatest length there is: ten bytes that wrap the index. */
  lemma GreatestLengthWraps()
    ensures var d: Bytes := [0x22] + EncodeVarint(INT64_LIMIT - 1);
      |d| < MAX_SLICE && Skip(d) == Skipped(|d| - 1 - INT64_LIMIT)
  {
    hide EncodeVarint, Skip, Pow2;
    Pow2Facts();
    EncodeLength(INT64_LIMIT - 1, 10);
    BareLength(INT64_LIMIT - 1);
  }

  lemma BareLength(v: nat)
    requires v < INT64_LIMIT
    ensures var d: Bytes := [0x22] + EncodeVarint(v); |d| < MAX_SLICE ==> Skip(d) == Skipped(AddInt64(|d|, v))
  {
    hide EncodeVarint, ScanVarint, IsVarint;
    var e: Bytes := EncodeVarint(v);
    var d: Bytes := [0x22] + e;
    assert d[1..1 + |e|] == e;
    DecodeEncoded(d, 1, v);
    OneByteTag(0x22);
    TagScan(d, 0, [0x22], 2);
  }

  lemma OneByteTag(b: Byte)
    requires b < 128
    ensures Tagged([b], b % 8)
  {
  }

  /** A field record of the encoding; tags and lengths are any varints, not just canonical ones. */
  datatype Record =
    | VarintRecord(tag: Bytes, value: Bytes)
    | Fixed64Record(tag: Bytes, bits: Bytes)
    | LengthRecord(tag: Bytes, length: Bytes, body: Bytes)
    | GroupRecord(tag: Bytes, items: Items, end: Bytes)
    | Fixed32Record(tag: Bytes, bits: Bytes)

  datatype Items = NoItems | Item(head: Record, tail: Items)

  predicate Tagged(tag: Bytes, wireType: nat) {
    IsVarint(tag) && tag[0] % 8 == wireType
  }

  predicate WellFormed(r: Record) {
    match r
    case VarintRecord(tag, value) => Tagged(tag, 0) && IsVarint(value)
    case Fixed64Record(tag, bits) => Tagged(tag, 1) && |bits| == 8
    case LengthRecord(tag, length, body) => Tagged(tag, 2) && IsVarint(length) && Value(length) % U64 == |body|
    case GroupRecord(tag, items, end) => Tagged(tag, 3) && AllWellFormed(items) && Tagged(end, 4)
    case Fixed32Record(tag, bits) => Tagged(tag, 5) && |bits| == 4
  }

  predicate AllWellFormed(items: Items) {
    items.NoItems? || (WellFormed(items.head) && AllWellFormed(items.tail))
  }

  function Encode(r: Record): Bytes {
    match r
    case VarintRecord(tag, value) => tag + value
    case Fixed64Record(tag, bits) => tag + bits
    case LengthRecord(tag, length, body) => tag + (length + body)
    case GroupRecord(tag, items, end) => tag + (EncodeItems(items) + end)
    case Fixed32Record(tag, bits) => tag + bits
  }

  function EncodeItems(items: Items): Bytes {
    match items
    case NoItems => []
    case Item(head, tail) => Encode(head) + EncodeItems(tail)
  }

  lemma TagScan(d: Bytes, i: nat, tag: Bytes, wireType: nat)
    requires Tagged(tag, wireType)
    requires At(d, i, tag)
    ensures Varint64(d, i).Done? && Varint64(d, i).next == i + |tag|
    ensures Varint64(d, i).value % 8 == wireType
    ensures d[i] % 8 == wireType
  {
    ScanVarintValue(d, i, tag);
    LowBits(tag);
    assert d[i] == d[i..i + |tag|][0];
  }

  lemma RecordStart(d: Bytes, i: nat, r: Record)
    requires WellFormed(r)
    requires At(d, i, Encode(r))
    ensures At(d, i, r.tag)
  {
    var rest := Encode(r)[|r.tag|..];
    assert Encode(r) == r.tag + rest;
    AtSplit(d, i, r.tag, rest);
  }

  lemma SkipScalarRecord(d: Bytes, r: Record)
    requires |d| < MAX_SLICE
    requires WellFormed(r) && !r.GroupRecord?
    requires At(d, 0, Encode(r))
    ensures SkipScalar(d, |r.tag|, r.tag[0] % 8) == Skipped(|Encode(r)|)
  {
    var k := |r.tag|;
    match r
    case VarintRecord(tag, value) =>
      AtSplit(d, 0, tag, value);
      ScanVarintValue(d, k, value);
    case LengthRecord(tag, length, body) =>
      AtSplit(d, 0, tag, length + body);
      AtSplit(d, k, length, body);
      ScanVarintValue(d, k, length);
    case _ =>
  }

  /** On a well-formed record followed by anything, skipFrame returns exactly the record's length. */
  lemma {:induction false} SkipRecord(d: Bytes, r: Record)
    requires |d| < MAX_SLICE
    requires WellFormed(r)
    requires At(d, 0, Encode(r))
    ensures Skip(d) == Skipped(|Encode(r)|)
    decreases r, 0
  {
    RecordStart(d, 0, r);
    TagScan(d, 0, r.tag, r.tag[0] % 8);
    if r.GroupRecord? {
      var inside := EncodeItems(r.items) + r.end;
      AtSplit(d, 0, r.tag, inside);
      SkipItems(d, |r.tag|, r.items, r.end);
    } else {
      SkipScalarRecord(d, r);
    }
  }

  lemma {:induction false} SkipItems(d: Bytes, i: nat, items: Items, end: Bytes)
    requires |d| < MAX_SLICE
    requires i >= 1
    requires AllWellFormed(items) && Tagged(end, 4)
    requires At(d, i, EncodeItems(items) + end)
    ensures SkipGroup(d, i) == Skipped(i + |EncodeItems(items)| + |end|)
    decreases items, 1
  {
    hide SkipGroup, Skip, Tagged, WellFormed, Encode;
    match items
    case NoItems =>
      assert EncodeItems(items) + end == end;
      GroupEnd(d, i, end);
    case Item(head, tail) =>
      var body, rest := Encode(head), EncodeItems(tail) + end;
      assert EncodeItems(items) + end == body + rest;
      AtSplit(d, i, body, rest);
      SkipRecord(d[i..], head);
      GroupStep(d, i, head);
      SkipItems(d, i + |body|, tail, end);
  }

  lemma GroupEnd(d: Bytes, i: nat, end: Bytes)
    requires |d| < MAX_SLICE
    requires i >= 1
    requires Tagged(end, 4) && At(d, i, end)
    ensures SkipGroup(d, i) == Skipped(i + |end|)
  {
    TagScan(d, i, end, 4);
  }

  lemma GroupStep(d: Bytes, i: nat, r: Record)
    requires |d| < MAX_SLICE
    requires i >= 1
    requires WellFormed(r) && At(d, i, Encode(r))
    requires Skip(d[i..]) == Skipped(|Encode(r)|)
    ensures SkipGroup(d, i) == SkipGroup(d, i + |Encode(r)|)
  {
    RecordStart(d, i, r);
    TagScan(d, i, r.tag, r.tag[0] % 8);
  }

  lemma TagOnly(d: Bytes, i: nat) returns (tag: Bytes)
    requires i <= |d|
    requires Varint64(d, i).Done?
    ensures Tagged(tag, Varint64(d, i).value % 8)
    ensures At(d, i, tag) && Varint64(d, i).next == i + |tag|
    ensures d[i] % 8 == tag[0] % 8
  {
    tag := ScanVarintOnly(d, i, U64);
    LowBits(tag);
    assert d[i] == d[i..i + |tag|][0];
  }

  lemma SkipScalarOnly(d: Bytes, tag: Bytes) returns (r: Record)
    requires |d| < MAX_SLICE
    requires tag != [] && Tagged(tag, tag[0] % 8) && tag[0] % 8 != 3 && tag[0] % 8 != 4
    requires At(d, 0, tag)
    requires var s := SkipScalar(d, |tag|, tag[0] % 8); s.Skipped? && 0 <= s.n <= |d|
    ensures WellFormed(r) && At(d, 0, Encode(r)) && r.tag == tag
    ensures SkipScalar(d, |tag|, tag[0] % 8).n == |Encode(r)|
  {
    hide Value, IsVarint, ScanVarint;
    var k := |tag|;
    match tag[0] % 8
    case 0 =>
      var value := ScanVarintOnly(d, k, U64);
      r := VarintRecord(tag, value);
      AtJoin(d, 0, tag, value);
    case 1 =>
      r := Fixed64Record(tag, d[k..k + 8]);
      AtJoin(d, 0, tag, d[k..k + 8]);
    case 2 =>
      var length := ScanVarintOnly(d, k, U64);
      var j := k + |length|;
      var body := d[j..j + Value(length) % U64];
      r := LengthRecord(tag, length, body);
      AtJoin(d, k, length, body);
      AtJoin(d, 0, tag, length + body);
    case _ =>
      r := Fixed32Record(tag, d[k..k + 4]);
      AtJoin(d, 0, tag, d[k..k + 4]);
  }

  /**
   Conversely, whenever skipFrame succeeds within the input, what it stepped over is one well-formed
   record; the one exception is a stray end-group tag, which it steps over alone.
   */
  lemma {:induction false} SkipOnly(d: Bytes) returns (r: Record)
    requires |d| < MAX_SLICE && d != []
    requires Skip(d).Skipped? && 0 <= Skip(d).n <= |d|
    requires d[0] % 8 != 4
    ensures WellFormed(r) && At(d, 0, Encode(r))
    ensures Skip(d).n == |Encode(r)|
    ensures At(d, 0, r.tag)
    decreases |d|, 1, 0
  {
    var tag := TagOnly(d, 0);
    if tag[0] % 8 == 3 {
      var items, end := SkipGroupOnly(d, |tag|);
      r := GroupRecord(tag, items, end);
      AtJoin(d, 0, tag, EncodeItems(items) + end);
    } else {
      r := SkipScalarOnly(d, tag);
    }
  }

  lemma {:induction false} SkipGroupOnly(d: Bytes, i: nat) returns (items: Items, end: Bytes)
    requires |d| < MAX_SLICE
    requires 1 <= i
    requires SkipGroup(d, i).Skipped?
    ensures AllWellFormed(items) && Tagged(end, 4)
    ensures At(d, i, EncodeItems(items) + end)
    ensures SkipGroup(d, i).n == i + |EncodeItems(items)| + |end|
    decreases |d|, 0, if i <= |d| then |d| - i else 0
  {
    hide Skip, WellFormed, Encode;
    var tag := TagOnly(d, i);
    if tag[0] % 8 == 4 {
      items, end := NoItems, tag;
      assert EncodeItems(items) + end == end;
    } else {
      var n := GroupAdvance(d, i);
      var head := SkipOnly(d[i..]);
      var tail;
      tail, end := SkipGroupOnly(d, i + n);
      items := Item(head, tail);
      JoinItem(d, i, head, tail, end);
    }
  }

  lemma JoinItem(d: Bytes, i: nat, head: Record, tail: Items, end: Bytes)
    requires i <= |d| && At(d[i..], 0, Encode(head))
    requires At(d, i + |Encode(head)|, EncodeItems(tail) + end)
    ensures At(d, i, EncodeItems(Item(head, tail)) + end)
  {
    var body, rest := Encode(head), EncodeItems(tail) + end;
    assert d[i..][..|body|] == d[i..i + |body|];
    AtJoin(d, i, body, rest);
    assert EncodeItems(Item(head, tail)) + end == body + rest;
  }

  lemma GroupAdvance(d: Bytes, i: nat) returns (n: nat)
    requires |d| < MAX_SLICE
    requires 1 <= i <= |d|
    requires SkipGroup(d, i).Skipped?
    requires Varint64(d, i).Done? && Varint64(d, i).value % 8 != 4
    ensures Skip(d[i..]) == Skipped(n) && 0 < n <= |d| - i
    ensures SkipGroup(d, i) == SkipGroup(d, i + n)
  {
    n := Skip(d[i..]).n;
  }

  /** skipFrame itself. Its outer loop returns or panics in its first round, so it is the test alone. */
  method SkipFrame(d: Bytes) returns (r: SkipResult)
    requires |d| < MAX_SLICE
    ensures r == Skip(d)
    decreases |d|
  {
    if |d| == 0 {
      return SkipPanic;
    }
    var tag := ReadVarint(d, 0, U64);
    if !tag.Done? {
      return SkipFailed(ScanError(tag));
    }
    var i := tag.next;
    match tag.value % 8
    case 0 =>
      var value := ReadVarint(d, i, U64);
      return if value.Done? then Skipped(value.next) else SkipFailed(ScanError(value));
    case 1 =>
      return Skipped(i + 8);
    case 2 =>
      var length := ReadVarint(d, i, U64);
      if !length.Done? {
        return SkipFailed(ScanError(length));
      }
      assert length == Varint64(d, i);
      if ToInt64(length.value) < 0 {
        return SkipFailed(InvalidLength);
      }
      return Skipped(AddInt64(length.next, length.value));
    case 3 =>
      while true
        invariant i >= 1
        invariant Skip(d) == SkipGroup(d, i)
        decreases if i <= |d| then |d| - i else 0
      {
        if i > |d| {
          return SkipFailed(UnexpectedEof);
        }
        var inner := ReadVarint(d, i, U64);
        if !inner.Done? {
          return SkipFailed(ScanError(inner));
        }
        if inner.value % 8 == 4 {
          return Skipped(inner.next);
        }
        var next := SkipFrame(d[i..]);
        if !next.Skipped? {
          return next;
        }
        if next.n < 0 || i + next.n >= INT64_LIMIT {
          return SkipPanic;
        }
        i := i + next.n;
      }
    case 4 =>
      return Skipped(i);
    case 5 =>
      return Skipped(i + 4);
    case t =>
      return SkipFailed(IllegalWireType(t));
  }
}
