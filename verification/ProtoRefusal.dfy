/**
 Inputs that the codec of testdata/frame.pb.go refuses: what can be wrong with the bytes, and how
 skipFrame and Unmarshal end on each.
 */
module ProtoRefusal {
  import opened Bytes
  import opened Varint
  import opened ProtoSkip
  import opened ProtoFrame

  /** The groups that are open where the input goes wrong: each start tag, with the whole records behind it. */
  datatype Nest = Here | Inside(tag: Bytes, items: Items, inner: Nest)

  predicate Nested(n: Nest) {
    n.Inside? ==> Tagged(n.tag, 3) && AllWellFormed(n.items) && Nested(n.inner)
  }

  function NestBytes(n: Nest): Bytes {
    match n
    case Here => []
    case Inside(tag, items, inner) => tag + (EncodeItems(items) + NestBytes(inner))
  }

  /** How far into the innermost group the input goes wrong. */
  function Base(n: Nest): nat {
    match n
    case Here => 0
    case Inside(tag, items, inner) => if inner.Here? then |tag| + |EncodeItems(items)| else Base(inner)
  }

  /** What is wrong with the rest of an input, at the start of a record: it ends too early, or is none. */
  datatype Flaw =
    | CutTag
    | LongTag
    | NoSuchType(tag: Bytes)
    | CutNumber(tag: Bytes)
    | LongNumber(tag: Bytes)
    | CutFixed(tag: Bytes)
    | CutLength(tag: Bytes)
    | LongLength(tag: Bytes)
    | NegativeLength(tag: Bytes, length: Bytes)
    | PastEnd(tag: Bytes, length: Bytes)

  predicate HasFlaw(rest: Bytes, f: Flaw) {
    match f
    case CutTag => Unfinished(rest)
    case LongTag => Endless(rest)
    case NoSuchType(tag) => At(rest, 0, tag) && (Tagged(tag, 6) || Tagged(tag, 7))
    case CutNumber(tag) => At(rest, 0, tag) && Tagged(tag, 0) && Unfinished(rest[|tag|..])
    case LongNumber(tag) => At(rest, 0, tag) && Tagged(tag, 0) && Endless(rest[|tag|..])
    case CutFixed(tag) =>
      At(rest, 0, tag) && ((Tagged(tag, 1) && |rest| < |tag| + 8) || (Tagged(tag, 5) && |rest| < |tag| + 4))
    case CutLength(tag) => At(rest, 0, tag) && Tagged(tag, 2) && Unfinished(rest[|tag|..])
    case LongLength(tag) => At(rest, 0, tag) && Tagged(tag, 2) && Endless(rest[|tag|..])
    case NegativeLength(tag, length) =>
      At(rest, 0, tag + length) && Tagged(tag, 2) && IsVarint(length) && Value(length) % U64 >= INT64_LIMIT
    case PastEnd(tag, length) =>
      && At(rest, 0, tag + length) && Tagged(tag, 2) && IsVarint(length)
      && Value(length) % U64 < INT64_LIMIT && BodyEnd(tag, length) > |rest|
  }

  /** Where a declared body ends, counted from the tag and before any wrap-around. */
  function BodyEnd(tag: Bytes, length: Bytes): nat {
    |tag| + |length| + Value(length) % U64
  }

  predicate EndsEarly(f: Flaw) {
    f.CutTag? || f.CutNumber? || f.CutLength?
  }

  predicate GoesOn(f: Flaw) {
    f.LongTag? || f.LongNumber? || f.LongLength?
  }

  lemma TailAt(rest: Bytes, tag: Bytes, length: Bytes)
    requires At(rest, 0, tag + length)
    ensures At(rest, 0, tag) && At(rest, |tag|, length)
  {
    AtSplit(rest, 0, tag, length);
  }

  lemma ByWireType(rest: Bytes, tag: Bytes, wireType: nat)
    requires |rest| < MAX_SLICE && Tagged(tag, wireType) && At(rest, 0, tag) && wireType != 3
    ensures tag != [] && rest != [] && Skip(rest) == SkipScalar(rest, |tag|, wireType) && wireType == tag[0] % 8
  {
    TagScan(rest, 0, tag, wireType);
  }

  lemma FlawedTag(rest: Bytes, f: Flaw)
    requires rest != [] && |rest| < MAX_SLICE && HasFlaw(rest, f)
    ensures f.CutTag? ==> Skip(rest) == SkipFailed(UnexpectedEof)
    ensures f.LongTag? ==> Skip(rest) == SkipFailed(IntOverflow)
    ensures f.NoSuchType? ==> Skip(rest) == SkipFailed(IllegalWireType(f.tag[0] % 8))
  {
    assert rest[0..] == rest;
    match f {
      case CutTag => ScanUnfinished(rest, 0);
      case LongTag => ScanEndless(rest, 0);
      case NoSuchType(tag) => ByWireType(rest, tag, tag[0] % 8);
      case _ =>
    }
    hide ScanVarint, Value, SkipGroup, Unfinished, Endless;
  }

  lemma FlawedNumber(rest: Bytes, f: Flaw)
    requires |rest| < MAX_SLICE && HasFlaw(rest, f) && (f.CutNumber? || f.LongNumber? || f.CutFixed?)
    ensures rest != []
    ensures f.CutNumber? ==> Skip(rest) == SkipFailed(UnexpectedEof)
    ensures f.LongNumber? ==> Skip(rest) == SkipFailed(IntOverflow)
    ensures f.CutFixed? ==> Skip(rest).Skipped? && |rest| < Skip(rest).n < |rest| + 9
  {
    hide Skip, ScanVarint, Value, Unfinished, Endless;
    ByWireType(rest, f.tag, f.tag[0] % 8);
    if f.CutNumber? {
      ScanUnfinished(rest, |f.tag|);
    } else if f.LongNumber? {
      ScanEndless(rest, |f.tag|);
    }
  }

  lemma FlawedLength(rest: Bytes, f: Flaw)
    requires |rest| < MAX_SLICE && HasFlaw(rest, f)
    requires f.CutLength? || f.LongLength? || f.NegativeLength? || f.PastEnd?
    ensures rest != []
    ensures f.CutLength? ==> Skip(rest) == SkipFailed(UnexpectedEof)
    ensures f.LongLength? ==> Skip(rest) == SkipFailed(IntOverflow)
    ensures f.NegativeLength? ==> Skip(rest) == SkipFailed(InvalidLength)
    ensures f.PastEnd? ==>
      |rest| < BodyEnd(f.tag, f.length) < U64 && Skip(rest) == Skipped(ToInt64(BodyEnd(f.tag, f.length)))
  {
    hide Skip, ScanVarint, Value, Unfinished, Endless, IsVarint;
    if f.NegativeLength? || f.PastEnd? {
      TailAt(rest, f.tag, f.length);
      ScanVarintValue(rest, |f.tag|, f.length);
    }
    ByWireType(rest, f.tag, 2);
    if f.CutLength? {
      ScanUnfinished(rest, |f.tag|);
    } else if f.LongLength? {
      ScanEndless(rest, |f.tag|);
    }
  }

  /** skipFrame on a flawed record that stands in no group. */
  lemma FlawAlone(rest: Bytes, f: Flaw)
    requires rest != [] && |rest| < MAX_SLICE && HasFlaw(rest, f)
    ensures EndsEarly(f) ==> Skip(rest) == SkipFailed(UnexpectedEof)
    ensures GoesOn(f) ==> Skip(rest) == SkipFailed(IntOverflow)
    ensures f.NoSuchType? ==> Skip(rest) == SkipFailed(IllegalWireType(f.tag[0] % 8))
    ensures f.NegativeLength? ==> Skip(rest) == SkipFailed(InvalidLength)
    ensures f.CutFixed? ==> Skip(rest).Skipped? && |rest| < Skip(rest).n < |rest| + 9
    ensures f.PastEnd? ==>
      |rest| < BodyEnd(f.tag, f.length) < U64 && Skip(rest) == Skipped(ToInt64(BodyEnd(f.tag, f.length)))
  {
    hide Skip, HasFlaw;
    if f.CutTag? || f.LongTag? || f.NoSuchType? {
      FlawedTag(rest, f);
    } else if f.CutNumber? || f.LongNumber? || f.CutFixed? {
      FlawedNumber(rest, f);
    } else {
      FlawedLength(rest, f);
    }
  }

  lemma FlawlessTag(rest: Bytes, f: Flaw)
    requires HasFlaw(rest, f)
    ensures !f.CutTag? && !f.LongTag? ==> Varint64(rest, 0).Done? && Varint64(rest, 0).value % 8 != 4
    ensures !f.CutTag? ==> rest != []
  {
    hide Value, ScanVarint, Unfinished;
    if f.NegativeLength? || f.PastEnd? {
      TailAt(rest, f.tag, f.length);
    }
    if !f.CutTag? && !f.LongTag? {
      TagScan(rest, 0, f.tag, f.tag[0] % 8);
    }
  }

  lemma {:induction false} ScanSlice(d: Bytes, i: nat, k: nat)
    requires i + k <= |d|
    ensures Varint64(d[i..], k).Done? <==> Varint64(d, i + k).Done?
    ensures Varint64(d[i..], k).Done? ==> Varint64(d[i..], k).value == Varint64(d, i + k).value
    ensures Varint64(d[i..], k).Truncated? <==> Varint64(d, i + k).Truncated?
  {
    assert d[i..][k..] == d[i + k..];
    var b := VarintOrNot(d, i + k);
    if Varint64(d, i + k).Done? {
      assert d[i..][k..k + |b|] == d[i + k..i + k + |b|];
      ScanVarintValue(d[i..], k, b);
    } else if Varint64(d, i + k).Truncated? {
      ScanUnfinished(d[i..], k);
    } else {
      ScanEndless(d[i..], k);
    }
  }

  /** The group loop steps over whole records. */
  lemma {:induction false} GroupWalks(d: Bytes, i: nat, items: Items)
    requires |d| < MAX_SLICE && i >= 1
    requires AllWellFormed(items) && At(d, i, EncodeItems(items))
    ensures SkipGroup(d, i) == SkipGroup(d, i + |EncodeItems(items)|)
    decreases items
  {
    hide SkipGroup, Skip, WellFormed, Encode;
    match items
    case NoItems =>
    case Item(head, tail) =>
      AtSplit(d, i, Encode(head), EncodeItems(tail));
      assert d[i..][..|Encode(head)|] == d[i..i + |Encode(head)|];
      SkipRecord(d[i..], head);
      GroupStep(d, i, head);
      GroupWalks(d, i + |Encode(head)|, tail);
  }

  /** Where the next record of a group goes wrong, so does the group. */
  lemma GroupMeets(d: Bytes, j: nat, f: Flaw)
    requires |d| < MAX_SLICE && 1 <= j <= |d| && HasFlaw(d[j..], f)
    ensures EndsEarly(f) || f.CutFixed? ==> SkipGroup(d, j) == SkipFailed(UnexpectedEof)
    ensures GoesOn(f) ==> SkipGroup(d, j) == SkipFailed(IntOverflow)
    ensures f.NoSuchType? ==> SkipGroup(d, j) == SkipFailed(IllegalWireType(f.tag[0] % 8))
    ensures f.NegativeLength? ==> SkipGroup(d, j) == SkipFailed(InvalidLength)
    ensures f.PastEnd? ==>
      SkipGroup(d, j) == if j + BodyEnd(f.tag, f.length) >= INT64_LIMIT then SkipPanic else SkipFailed(UnexpectedEof)
  {
    hide HasFlaw, Skip, SkipGroup, Varint64;
    ScanSlice(d, j, 0);
    if f.CutTag? || f.LongTag? {
      OnlyTag(d, j, f);
      GroupStops(d, j);
    } else {
      FlawlessTag(d[j..], f);
      FlawAlone(d[j..], f);
      GroupGoes(d, j);
    }
  }

  lemma GroupStops(d: Bytes, j: nat)
    requires |d| < MAX_SLICE && 1 <= j <= |d| && !Varint64(d, j).Done?
    ensures SkipGroup(d, j) == SkipFailed(if Varint64(d, j).Truncated? then UnexpectedEof else IntOverflow)
  {
    hide Varint64;
  }

  lemma GroupGoes(d: Bytes, j: nat)
    requires |d| < MAX_SLICE && 1 <= j <= |d| && Varint64(d, j).Done? && Varint64(d, j).value % 8 != 4
    ensures var inner := Skip(d[j..]);
      && (!inner.Skipped? ==> SkipGroup(d, j) == inner)
      && (inner.Skipped? && (inner.n < 0 || j + inner.n >= INT64_LIMIT) ==> SkipGroup(d, j) == SkipPanic)
      && (inner.Skipped? && |d| - j < inner.n < INT64_LIMIT - j ==> SkipGroup(d, j) == SkipFailed(UnexpectedEof))
  {
    hide Skip, Varint64;
    var inner := Skip(d[j..]);
    if inner.Skipped? && |d| - j < inner.n < INT64_LIMIT - j {
      assert SkipGroup(d, j) == SkipGroup(d, j + inner.n);
    }
  }

  lemma OnlyTag(d: Bytes, j: nat, f: Flaw)
    requires j <= |d| && HasFlaw(d[j..], f) && (f.CutTag? || f.LongTag?)
    ensures if f.CutTag? then Varint64(d, j).Truncated? else Varint64(d, j).Overlong?
  {
    if f.CutTag? {
      ScanUnfinished(d, j);
    } else {
      ScanEndless(d, j);
    }
  }

  /** A group inside a group passes on whatever goes wrong in it. */
  lemma GroupPassesOn(d: Bytes, j: nat, tag: Bytes)
    requires |d| < MAX_SLICE && 1 <= j <= |d| && Tagged(tag, 3) && At(d[j..], 0, tag)
    requires !Skip(d[j..]).Skipped?
    ensures SkipGroup(d, j) == Skip(d[j..])
  {
    hide Skip, SkipGroup, Varint64;
    TagScan(d[j..], 0, tag, 3);
    ScanSlice(d, j, 0);
    GroupGoes(d, j);
  }

  /** How skipFrame ends on an input that goes wrong: at the start of a record, in any depth of groups. */
  lemma {:induction false} SkipRefuses(d: Bytes, n: Nest, rest: Bytes, f: Flaw)
    requires d == NestBytes(n) + rest && d != [] && |d| < MAX_SLICE
    requires Nested(n) && HasFlaw(rest, f)
    ensures EndsEarly(f) ==> Skip(d) == SkipFailed(UnexpectedEof)
    ensures GoesOn(f) ==> Skip(d) == SkipFailed(IntOverflow)
    ensures f.NoSuchType? ==> Skip(d) == SkipFailed(IllegalWireType(f.tag[0] % 8))
    ensures f.NegativeLength? ==> Skip(d) == SkipFailed(InvalidLength)
    ensures f.CutFixed? && n.Inside? ==> Skip(d) == SkipFailed(UnexpectedEof)
    ensures f.CutFixed? && n.Here? ==> Skip(d).Skipped? && |d| < Skip(d).n < |d| + 9
    ensures f.PastEnd? && n.Inside? ==>
      Skip(d) == if Base(n) + BodyEnd(f.tag, f.length) >= INT64_LIMIT then SkipPanic else SkipFailed(UnexpectedEof)
    ensures f.PastEnd? && n.Here? ==>
      |d| < BodyEnd(f.tag, f.length) < U64 && Skip(d) == Skipped(ToInt64(BodyEnd(f.tag, f.length)))
    decreases n
  {
    hide HasFlaw, Skip, SkipGroup, At, Tagged, EncodeItems, AllWellFormed;
    match n
    case Here =>
      assert d == rest;
      FlawAlone(rest, f);
    case Inside(tag, items, inner) =>
      var j, more := |tag| + |EncodeItems(items)|, NestBytes(inner) + rest;
      assert d == tag + (EncodeItems(items) + more);
      OpeningBytes(d, tag, EncodeItems(items), more);
      GroupOpens(d, tag, items);
      if inner.Here? {
        assert more == rest;
        GroupMeets(d, j, f);
      } else {
        InnerTag(more, inner, rest);
        SkipRefuses(more, inner, rest, f);
        GroupPassesOn(d, j, inner.tag);
      }
  }

  lemma InnerTag(d: Bytes, n: Nest, rest: Bytes)
    requires d == NestBytes(n) + rest && Nested(n) && n.Inside?
    ensures d != [] && At(d, 0, n.tag) && Tagged(n.tag, 3)
  {
  }

  lemma OpeningBytes(d: Bytes, tag: Bytes, inside: Bytes, more: Bytes)
    requires d == tag + (inside + more)
    ensures At(d, 0, tag) && At(d, |tag|, inside)
    ensures |tag| + |inside| <= |d| && d[|tag| + |inside|..] == more
  {
    assert d[|tag|..] == inside + more;
  }

  lemma GroupOpens(d: Bytes, tag: Bytes, items: Items)
    requires |d| < MAX_SLICE && Tagged(tag, 3) && AllWellFormed(items)
    requires At(d, 0, tag) && At(d, |tag|, EncodeItems(items))
    ensures tag != [] && d != []
    ensures Skip(d) == SkipGroup(d, |tag| + |EncodeItems(items)|)
  {
    hide Skip, SkipGroup, EncodeItems, AllWellFormed, At, Tagged;
    GroupStarts(d, tag);
    GroupWalks(d, |tag|, items);
  }

  lemma GroupStarts(d: Bytes, tag: Bytes)
    requires |d| < MAX_SLICE && Tagged(tag, 3) && At(d, 0, tag)
    ensures tag != [] && d != [] && Skip(d) == SkipGroup(d, |tag|)
  {
    hide SkipGroup, ScanVarint;
    TagScan(d, 0, tag, 3);
  }

  /** What a number, a fixed field or a length that is not all there is to be blamed on. */
  lemma ScalarClassified(d: Bytes, tag: Bytes) returns (f: Flaw)
    requires |d| < MAX_SLICE && tag != [] && At(d, 0, tag) && Tagged(tag, tag[0] % 8)
    requires tag[0] % 8 != 3 && tag[0] % 8 != 4
    requires var r := SkipScalar(d, |tag|, tag[0] % 8); !(r.Skipped? && 0 <= r.n <= |d|)
    ensures HasFlaw(d, f) && !f.CutTag? && !f.LongTag?
  {
    hide ScanVarint, Value, IsVarint, Unfinished, Endless;
    var k := |tag|;
    match tag[0] % 8
    case 0 =>
      var b := VarintOrNot(d, k);
      f := if Varint64(d, k).Truncated? then CutNumber(tag) else LongNumber(tag);
    case 2 =>
      var b := VarintOrNot(d, k);
      if Varint64(d, k).Done? {
        AtJoin(d, 0, tag, b);
        f := if Value(b) % U64 >= INT64_LIMIT then NegativeLength(tag, b) else PastEnd(tag, b);
      } else {
        f := if Varint64(d, k).Truncated? then CutLength(tag) else LongLength(tag);
      }
    case 1 => f := CutFixed(tag);
    case 5 => f := CutFixed(tag);
    case _ => f := NoSuchType(tag);
  }

  lemma SkipHead(d: Bytes) returns (tag: Bytes)
    requires d != [] && |d| < MAX_SLICE && !(Skip(d).Skipped? && 0 <= Skip(d).n <= |d|)
    ensures Varint64(d, 0).Truncated? ==> Unfinished(d)
    ensures Varint64(d, 0).Overlong? ==> Endless(d)
    ensures Varint64(d, 0).Done? ==>
      && tag != [] && Tagged(tag, tag[0] % 8) && At(d, 0, tag) && tag[0] % 8 != 4
      && Skip(d) == if tag[0] % 8 == 3 then SkipGroup(d, |tag|) else SkipScalar(d, |tag|, tag[0] % 8)
  {
    hide SkipGroup, SkipScalar, ScanVarint, Unfinished, Endless, Value;
    assert d[0..] == d;
    tag := VarintOrNot(d, 0);
    if Varint64(d, 0).Done? {
      LowBits(tag);
      LeavesNoStray(d, tag);
    }
  }

  lemma NestsHere(d: Bytes)
    ensures NestBytes(Here) + d == d
  {
  }

  lemma NestsInside(d: Bytes, tag: Bytes, items: Items, inner: Nest, rest: Bytes)
    requires At(d, 0, tag) && d[|tag|..] == EncodeItems(items) + (NestBytes(inner) + rest)
    ensures d == NestBytes(Inside(tag, items, inner)) + rest
  {
    hide EncodeItems;
    assert d == tag + d[|tag|..];
    Associative(EncodeItems(items), NestBytes(inner), rest);
    Associative(tag, EncodeItems(items) + NestBytes(inner), rest);
  }

  /** Conversely, whenever skipFrame does not step over something within the input, the input has such a flaw. */
  lemma {:induction false} SkipClassified(d: Bytes) returns (n: Nest, rest: Bytes, f: Flaw)
    requires d != [] && |d| < MAX_SLICE && !(Skip(d).Skipped? && 0 <= Skip(d).n <= |d|)
    ensures d == NestBytes(n) + rest && Nested(n) && HasFlaw(rest, f)
    decreases |d|, 1, 0
  {
    hide Skip, SkipGroup, SkipScalar, Varint64, HasFlaw, Unfinished, Endless, EncodeItems, AllWellFormed, NestBytes, Tagged;
    n, rest := Here, d;
    NestsHere(d);
    var tag := SkipHead(d);
    if !Varint64(d, 0).Done? {
      f := if Varint64(d, 0).Truncated? then CutTag else LongTag;
      BareTag(d, f);
    } else if tag[0] % 8 == 3 {
      var items, inner;
      items, inner, rest, f := GroupClassified(d, |tag|);
      n := Inside(tag, items, inner);
      NestsInside(d, tag, items, inner, rest);
    } else {
      f := ScalarClassified(d, tag);
    }
  }

  lemma BareTag(d: Bytes, f: Flaw)
    requires (f == CutTag && Unfinished(d)) || (f == LongTag && Endless(d))
    ensures HasFlaw(d, f)
  {
  }

  lemma LeavesNoStray(d: Bytes, tag: Bytes)
    requires |d| < MAX_SLICE && 1 <= |tag| <= |d|
    ensures tag[0] % 8 == 4 ==> SkipScalar(d, |tag|, tag[0] % 8) == Skipped(|tag|)
  {
  }

  lemma GroupNotEnded(d: Bytes, i: nat)
    requires 1 <= i <= |d| < MAX_SLICE && !SkipGroup(d, i).Skipped? && Varint64(d, i).Done?
    ensures i < |d| && Varint64(d, i).value % 8 != 4
    ensures var inner := Skip(d[i..]);
      inner.Skipped? && 0 <= inner.n <= |d| - i ==> inner.n > 0 && SkipGroup(d, i) == SkipGroup(d, i + inner.n)
  {
    hide Skip, Varint64;
  }

  /** Where a group's next record starts, if there is one. */
  lemma GroupHead(d: Bytes, i: nat)
    requires 1 <= i <= |d| < MAX_SLICE && !SkipGroup(d, i).Skipped?
    ensures Varint64(d, i).Truncated? ==> Unfinished(d[i..])
    ensures Varint64(d, i).Overlong? ==> Endless(d[i..])
    ensures Varint64(d, i).Done? ==> i < |d| && d[i] % 8 != 4
  {
    hide SkipGroup, ScanVarint, Unfinished, Endless, Value;
    var tag := VarintOrNot(d, i);
    if Varint64(d, i).Done? {
      GroupNotEnded(d, i);
      LowBits(tag);
      assert d[i] == d[i..i + |tag|][0];
    }
  }

  lemma {:induction false} GroupClassified(d: Bytes, i: nat) returns (items: Items, n: Nest, rest: Bytes, f: Flaw)
    requires 1 <= i <= |d| < MAX_SLICE && !SkipGroup(d, i).Skipped?
    ensures AllWellFormed(items) && Nested(n) && HasFlaw(rest, f)
    ensures d[i..] == EncodeItems(items) + (NestBytes(n) + rest)
    decreases |d|, 0, |d| - i
  {
    hide Skip, SkipGroup, Varint64, HasFlaw, Unfinished, Endless, WellFormed, Encode;
    items, n, rest := NoItems, Here, d[i..];
    assert d[i..] == [] + ([] + rest);
    GroupHead(d, i);
    if !Varint64(d, i).Done? {
      f := if Varint64(d, i).Truncated? then CutTag else LongTag;
      BareTag(rest, f);
    } else {
      GroupNotEnded(d, i);
      var inner := Skip(d[i..]);
      if inner.Skipped? && 0 <= inner.n <= |d| - i {
        var head := SkipOnly(d[i..]);
        var tail;
        tail, n, rest, f := GroupClassified(d, i + inner.n);
        items := Item(head, tail);
        HeadAndTail(d, i, Encode(head));
        Associative(Encode(head), EncodeItems(tail), NestBytes(n) + rest);
      } else {
        n, rest, f := SkipClassified(d[i..]);
        assert d[i..] == [] + (NestBytes(n) + rest);
      }
    }
  }

  lemma HeadAndTail(d: Bytes, i: nat, head: Bytes)
    requires i <= |d| && At(d[i..], 0, head)
    ensures i + |head| <= |d| && d[i..] == head + d[i + |head|..]
  {
    var w := d[i..];
    assert w == w[..|head|] + w[|head|..] && w[|head|..] == d[i + |head|..];
  }

  /** The field number of a tag. */
  function Number(tag: Bytes): int {
    FieldNumber(Value(tag) % U64)
  }

  /** What Unmarshal can stumble on at the start of a field: a tag that is no field's, or a flaw in the field. */
  datatype Fault =
    | StrayEnd(tag: Bytes)
    | BadNumber(tag: Bytes)
    | WrongType(tag: Bytes)
    | InField(n: Nest, rest: Bytes, f: Flaw)

  predicate Known(tag: Bytes) {
    1 <= Number(tag) <= 3
  }

  function TypeOf(number: int): nat {
    if number == 1 then 0 else 2
  }

  /** The field is one of the message's own, and what is wrong is with its value or its length. */
  predicate KnownFlaw(f: Flaw) {
    match f
    case CutNumber(tag) => Number(tag) == 1
    case LongNumber(tag) => Number(tag) == 1
    case CutLength(tag) => 2 <= Number(tag) <= 3
    case LongLength(tag) => 2 <= Number(tag) <= 3
    case NegativeLength(tag, _) => 2 <= Number(tag) <= 3
    case PastEnd(tag, _) => 2 <= Number(tag) <= 3
    case _ => false
  }

  predicate HasFault(tail: Bytes, fault: Fault) {
    match fault
    case StrayEnd(tag) => At(tail, 0, tag) && Tagged(tag, 4)
    case BadNumber(tag) => At(tail, 0, tag) && IsVarint(tag) && tag[0] % 8 != 4 && Number(tag) <= 0
    case WrongType(tag) =>
      At(tail, 0, tag) && IsVarint(tag) && tag[0] % 8 != 4 && Known(tag) && tag[0] % 8 != TypeOf(Number(tag))
    case InField(n, rest, f) =>
      && tail == NestBytes(n) + rest && tail != [] && Nested(n) && HasFlaw(rest, f)
      && (n.Inside? ==> Number(n.tag) > 3)
      && (n.Here? && !f.CutTag? && !f.LongTag? ==> Number(f.tag) > 3 || KnownFlaw(f))
  }

  /** Whole fields in front of anything only change the message. */
  lemma {:induction false} UnmarshalWalks(d: Bytes, i: nat, fs: seq<Field>, tail: Bytes, m: Msg)
    requires i <= |d| < MAX_SLICE
    requires ValidFields(fs) && d[i..] == EncodeFields(fs) + tail
    ensures i + |EncodeFields(fs)| <= |d| && d[i + |EncodeFields(fs)|..] == tail
    ensures UnmarshalFrom(d, i, m) == UnmarshalFrom(d, i + |EncodeFields(fs)|, ApplyAll(fs, m))
    decreases |fs|
  {
    hide UnmarshalFrom, FieldBytes, Apply, ValidField;
    if fs == [] {
      assert EncodeFields(fs) + tail == tail;
    } else {
      var f, more := fs[0], EncodeFields(fs[1..]) + tail;
      Associative(FieldBytes(f), EncodeFields(fs[1..]), tail);
      StepForward(d, i, f, more, m);
      UnmarshalWalks(d, i + |FieldBytes(f)|, fs[1..], tail, Apply(f, m));
    }
  }

  lemma Stops(d: Bytes, i: nat, m: Msg)
    requires i < |d| < MAX_SLICE
    ensures FieldAt(d, i, m).Stop? ==> UnmarshalFrom(d, i, m) == FieldAt(d, i, m).outcome
  {
    hide FieldAt;
  }

  /** A tag that is no field's. */
  lemma TagRefused(d: Bytes, i: nat, tag: Bytes, m: Msg)
    requires i <= |d| < MAX_SLICE && IsVarint(tag) && At(d, i, tag)
    ensures i < |d|
    ensures tag[0] % 8 == 4 ==> UnmarshalFrom(d, i, m) == Failed(m, EndGroup)
    ensures tag[0] % 8 != 4 && Number(tag) <= 0 ==> UnmarshalFrom(d, i, m) == Failed(m, IllegalTag(Number(tag)))
    ensures tag[0] % 8 != 4 && Known(tag) && tag[0] % 8 != TypeOf(Number(tag)) ==>
      UnmarshalFrom(d, i, m) == Failed(m, WrongWireType(Number(tag)))
  {
    ScanVarintValue(d, i, tag);
    LowBits(tag);
    Stops(d, i, m);
    hide UnmarshalFrom, ScanVarint, Value, UnknownAt, Delimited;
  }

  lemma NoTag(d: Bytes, i: nat, m: Msg)
    requires i < |d| < MAX_SLICE
    ensures Unfinished(d[i..]) ==> UnmarshalFrom(d, i, m) == Failed(m, UnexpectedEof)
    ensures Endless(d[i..]) ==> UnmarshalFrom(d, i, m) == Failed(m, IntOverflow)
  {
    hide ScanVarint, Value, KnownField, UnknownAt, Unfinished, Endless;
    Stops(d, i, m);
    if Unfinished(d[i..]) {
      ScanUnfinished(d, i);
    }
    if Endless(d[i..]) {
      ScanEndless(d, i);
    }
  }

  /** With the tag read, a field of the message itself is up to its value. */
  lemma KnownAhead(d: Bytes, i: nat, tag: Bytes, m: Msg)
    requires i <= |d| < MAX_SLICE && IsVarint(tag) && At(d, i, tag) && Known(tag) && tag[0] % 8 == TypeOf(Number(tag))
    ensures i < |d| && i + |tag| <= |d|
    ensures FieldAt(d, i, m) == KnownField(d, i + |tag|, Number(tag), TypeOf(Number(tag)), m)
  {
    ScanVarintValue(d, i, tag);
    LowBits(tag);
    hide ScanVarint, Value, KnownField, UnknownAt;
  }

  lemma TypeRefused(d: Bytes, i: nat, tag: Bytes, m: Msg)
    requires i <= |d| < MAX_SLICE && Tagged(tag, 0) && At(d, i, tag) && Number(tag) == 1
    ensures i < |d| && i + |tag| <= |d|
    ensures Unfinished(d[i + |tag|..]) ==>
      UnmarshalFrom(d, i, m) == Failed(m.(typ := Value(d[i + |tag|..]) % U32), UnexpectedEof)
    ensures Endless(d[i + |tag|..]) ==>
      UnmarshalFrom(d, i, m) == Failed(m.(typ := Value(d[i + |tag|..][..10]) % U32), IntOverflow)
  {
    hide UnmarshalFrom, FieldAt, ScanVarint, Value, Unfinished, Endless, FieldNumber;
    KnownAhead(d, i, tag, m);
    Stops(d, i, m);
    if Unfinished(d[i + |tag|..]) {
      ScanUnfinished(d, i + |tag|);
    }
    if Endless(d[i + |tag|..]) {
      ScanEndless(d, i + |tag|);
    }
  }

  lemma BodyRefused(d: Bytes, i: nat, f: Flaw, m: Msg)
    requires i <= |d| < MAX_SLICE && HasFlaw(d[i..], f) && KnownFlaw(f) && !f.CutNumber? && !f.LongNumber?
    ensures i < |d|
    ensures f.CutLength? ==> UnmarshalFrom(d, i, m) == Failed(m, UnexpectedEof)
    ensures f.LongLength? ==> UnmarshalFrom(d, i, m) == Failed(m, IntOverflow)
    ensures f.NegativeLength? ==> UnmarshalFrom(d, i, m) == Failed(m, InvalidLength)
    ensures f.PastEnd? ==>
      UnmarshalFrom(d, i, m)
      == if i + BodyEnd(f.tag, f.length) >= INT64_LIMIT then Panicked(m) else Failed(m, UnexpectedEof)
  {
    hide UnmarshalFrom, FieldAt, ScanVarint, Value, Unfinished, Endless, FieldNumber, IsVarint, At;
    var k := i + |f.tag|;
    if f.NegativeLength? || f.PastEnd? {
      TailAt(d[i..], f.tag, f.length);
      SliceAt(d, i, |f.tag|, f.length);
      ScanVarintValue(d, k, f.length);
    }
    SliceAt(d, i, 0, f.tag);
    TagNonEmpty(f.tag, 2);
    KnownAhead(d, i, f.tag, m);
    Stops(d, i, m);
    assert d[i..][|f.tag|..] == d[k..];
    if f.CutLength? {
      ScanUnfinished(d, k);
    } else if f.LongLength? {
      ScanEndless(d, k);
    }
  }

  lemma SliceAt(d: Bytes, i: nat, k: nat, part: Bytes)
    requires i <= |d| && At(d[i..], k, part)
    ensures At(d, i + k, part)
  {
    assert d[i..][k..k + |part|] == d[i + k..i + k + |part|];
  }

  lemma TagNonEmpty(tag: Bytes, wireType: nat)
    requires Tagged(tag, wireType)
    ensures tag != [] && IsVarint(tag) && tag[0] % 8 == wireType
  {
  }

  /** A field of a number that the message does not have goes to skipFrame. */
  lemma UnknownAhead(d: Bytes, i: nat, tag: Bytes, m: Msg)
    requires i <= |d| < MAX_SLICE && IsVarint(tag) && At(d, i, tag) && Number(tag) > 3 && tag[0] % 8 != 4
    ensures i < |d| && FieldAt(d, i, m) == UnknownAt(d, i, m)
  {
    ScanVarintValue(d, i, tag);
    LowBits(tag);
    hide ScanVarint, Value, KnownField, UnknownAt;
  }

  /** The first tag of a flawed record, in a group or not. */
  function FirstTag(n: Nest, f: Flaw): Bytes
    requires n.Inside? || (!f.CutTag? && !f.LongTag?)
  {
    if n.Inside? then n.tag else f.tag
  }

  lemma FirstTagAt(tail: Bytes, n: Nest, rest: Bytes, f: Flaw)
    requires tail == NestBytes(n) + rest && Nested(n) && HasFlaw(rest, f)
    requires n.Inside? || (!f.CutTag? && !f.LongTag?)
    ensures var tag := FirstTag(n, f); At(tail, 0, tag) && IsVarint(tag) && tag[0] % 8 != 4
  {
    hide Unfinished, Endless, Value, EncodeItems, AllWellFormed;
    if n.Here? {
      assert tail == rest;
      if f.NegativeLength? || f.PastEnd? {
        TailAt(rest, f.tag, f.length);
      }
    }
  }

  lemma UnknownRefused(d: Bytes, i: nat, n: Nest, rest: Bytes, f: Flaw, m: Msg)
    requires i < |d| < MAX_SLICE && d[i..] == NestBytes(n) + rest && Nested(n) && HasFlaw(rest, f)
    requires n.Inside? || (!f.CutTag? && !f.LongTag?)
    requires Number(FirstTag(n, f)) > 3
    ensures EndsEarly(f) || f.CutFixed? ==> UnmarshalFrom(d, i, m) == Failed(m, UnexpectedEof)
    ensures GoesOn(f) ==> UnmarshalFrom(d, i, m) == Failed(m, IntOverflow)
    ensures f.NoSuchType? ==> UnmarshalFrom(d, i, m) == Failed(m, IllegalWireType(f.tag[0] % 8))
    ensures f.NegativeLength? ==> UnmarshalFrom(d, i, m) == Failed(m, InvalidLength)
    ensures f.PastEnd? && n.Inside? ==>
      UnmarshalFrom(d, i, m)
      == if Base(n) + BodyEnd(f.tag, f.length) >= INT64_LIMIT then Panicked(m) else Failed(m, UnexpectedEof)
    ensures f.PastEnd? && n.Here? ==>
      UnmarshalFrom(d, i, m)
      == if BodyEnd(f.tag, f.length) >= INT64_LIMIT then Failed(m, InvalidLength)
         else if i + BodyEnd(f.tag, f.length) >= INT64_LIMIT then Panicked(m)
         else Failed(m, UnexpectedEof)
  {
    hide UnmarshalFrom, FieldAt, Skip, HasFlaw, At, IsVarint, NestBytes, Nested, Number, Base;
    var tail, tag := d[i..], FirstTag(n, f);
    FirstTagAt(tail, n, rest, f);
    SliceAt(d, i, 0, tag);
    UnknownAhead(d, i, tag, m);
    Stops(d, i, m);
    SkipRefuses(tail, n, rest, f);
  }

  /** Whole fields, and then this. */
  predicate StumblesAt(d: Bytes, fs: seq<Field>, tail: Bytes, fault: Fault) {
    ValidFields(fs) && d == EncodeFields(fs) + tail && HasFault(tail, fault)
  }

  /** What an unfinished number has done to the message's type by then. */
  function SoFar(fault: Fault, m: Msg): Msg {
    if fault.InField? && fault.n.Here? && KnownFlaw(fault.f) && fault.f.CutNumber? && |fault.f.tag| <= |fault.rest| then
      m.(typ := Value(fault.rest[|fault.f.tag|..]) % U32)
    else if fault.InField? && fault.n.Here? && KnownFlaw(fault.f) && fault.f.LongNumber?
      && |fault.f.tag| + 10 <= |fault.rest| then
      m.(typ := Value(fault.rest[|fault.f.tag|..][..10]) % U32)
    else m
  }

  /**
   The declared body ends past the greatest int: counted from the start of the input, or, inside a
   group, from the start of the group.
   */
  predicate Overruns(i: nat, fault: Fault) {
    && fault.InField? && fault.f.PastEnd?
    && var end := BodyEnd(fault.f.tag, fault.f.length);
      if fault.n.Inside? then Base(fault.n) + end >= INT64_LIMIT
      else i + end >= INT64_LIMIT && (Number(fault.f.tag) > 3 ==> end < INT64_LIMIT)
  }

  /** Of a field that the message does not have, counted from its own tag already. */
  predicate OverrunsAlone(fault: Fault) {
    && fault.InField? && fault.f.PastEnd? && fault.n.Here? && Number(fault.f.tag) > 3
    && BodyEnd(fault.f.tag, fault.f.length) >= INT64_LIMIT
  }

  predicate EndsAs(r: Outcome, i: nat, fault: Fault, m: Msg)
    requires fault.InField?
  {
    var f := fault.f;
    && (EndsEarly(f) || f.CutFixed? ==> r == Failed(SoFar(fault, m), UnexpectedEof))
    && (GoesOn(f) ==> r == Failed(SoFar(fault, m), IntOverflow))
    && (f.NoSuchType? ==> r == Failed(m, IllegalWireType(if f.tag == [] then 0 else f.tag[0] % 8)))
    && (f.NegativeLength? || OverrunsAlone(fault) ==> r == Failed(m, InvalidLength))
    && (Overruns(i, fault) ==> r == Panicked(m))
    && (f.PastEnd? && !OverrunsAlone(fault) && !Overruns(i, fault) ==> r == Failed(m, UnexpectedEof))
  }

  lemma TypeHasTag(rest: Bytes, f: Flaw)
    requires HasFlaw(rest, f)
    ensures f.NoSuchType? ==> f.tag != []
  {
  }

  lemma InUnknown(d: Bytes, i: nat, n: Nest, rest: Bytes, f: Flaw, m: Msg)
    requires i <= |d| < MAX_SLICE && HasFault(d[i..], InField(n, rest, f))
    requires n.Inside? || (!f.CutTag? && !f.LongTag? && !KnownFlaw(f))
    ensures EndsAs(UnmarshalFrom(d, i, m), i, InField(n, rest, f), m)
  {
    hide HasFlaw, UnmarshalFrom, NestBytes, Nested, KnownFlaw, Number, BodyEnd, Base;
    TypeHasTag(rest, f);
    UnknownRefused(d, i, n, rest, f, m);
  }

  lemma InTag(d: Bytes, i: nat, rest: Bytes, f: Flaw, m: Msg)
    requires i <= |d| < MAX_SLICE && HasFault(d[i..], InField(Here, rest, f)) && (f.CutTag? || f.LongTag?)
    ensures EndsAs(UnmarshalFrom(d, i, m), i, InField(Here, rest, f), m)
  {
    hide UnmarshalFrom, Unfinished, Endless;
    assert rest == d[i..];
    NoTag(d, i, m);
  }

  lemma InType(d: Bytes, i: nat, rest: Bytes, f: Flaw, m: Msg)
    requires i <= |d| < MAX_SLICE && HasFault(d[i..], InField(Here, rest, f))
    requires KnownFlaw(f) && (f.CutNumber? || f.LongNumber?)
    ensures EndsAs(UnmarshalFrom(d, i, m), i, InField(Here, rest, f), m)
  {
    hide UnmarshalFrom, Value, Number;
    assert rest == d[i..];
    SliceAt(d, i, 0, f.tag);
    assert rest[|f.tag|..] == d[i + |f.tag|..];
    TypeRefused(d, i, f.tag, m);
  }

  lemma InBody(d: Bytes, i: nat, rest: Bytes, f: Flaw, m: Msg)
    requires i <= |d| < MAX_SLICE && HasFault(d[i..], InField(Here, rest, f))
    requires KnownFlaw(f) && !f.CutNumber? && !f.LongNumber?
    ensures EndsAs(UnmarshalFrom(d, i, m), i, InField(Here, rest, f), m)
  {
    hide UnmarshalFrom, HasFlaw, Number, BodyEnd;
    assert rest == d[i..];
    BodyRefused(d, i, f, m);
  }

  lemma FieldRefused(d: Bytes, i: nat, n: Nest, rest: Bytes, f: Flaw, m: Msg)
    requires i <= |d| < MAX_SLICE && HasFault(d[i..], InField(n, rest, f))
    ensures EndsAs(UnmarshalFrom(d, i, m), i, InField(n, rest, f), m)
  {
    hide HasFault, EndsAs, UnmarshalFrom, KnownFlaw;
    if n.Inside? || (!f.CutTag? && !f.LongTag? && !KnownFlaw(f)) {
      InUnknown(d, i, n, rest, f, m);
    } else if f.CutTag? || f.LongTag? {
      InTag(d, i, rest, f, m);
    } else if f.CutNumber? || f.LongNumber? {
      InType(d, i, rest, f, m);
    } else {
      InBody(d, i, rest, f, m);
    }
  }

  /**
   How Unmarshal ends on an input that is no sequence of whole fields, and what it leaves in the
   message: the whole fields in front, and of an unfinished type what was read of it.
   */
  lemma UnmarshalRefuses(d: Bytes, fs: seq<Field>, tail: Bytes, fault: Fault, m: Msg)
    requires |d| < MAX_SLICE && StumblesAt(d, fs, tail, fault)
    ensures fault.StrayEnd? ==> UnmarshalFrom(d, 0, m) == Failed(ApplyAll(fs, m), EndGroup)
    ensures fault.BadNumber? ==> UnmarshalFrom(d, 0, m) == Failed(ApplyAll(fs, m), IllegalTag(Number(fault.tag)))
    ensures fault.WrongType? ==> UnmarshalFrom(d, 0, m) == Failed(ApplyAll(fs, m), WrongWireType(Number(fault.tag)))
    ensures fault.InField? && (EndsEarly(fault.f) || fault.f.CutFixed?) ==>
      UnmarshalFrom(d, 0, m) == Failed(SoFar(fault, ApplyAll(fs, m)), UnexpectedEof)
    ensures fault.InField? && GoesOn(fault.f) ==>
      UnmarshalFrom(d, 0, m) == Failed(SoFar(fault, ApplyAll(fs, m)), IntOverflow)
    ensures fault.InField? && fault.f.NoSuchType? ==>
      UnmarshalFrom(d, 0, m) == Failed(ApplyAll(fs, m), IllegalWireType(fault.f.tag[0] % 8))
    ensures (fault.InField? && fault.f.NegativeLength?) || OverrunsAlone(fault) ==>
      UnmarshalFrom(d, 0, m) == Failed(ApplyAll(fs, m), InvalidLength)
    ensures Overruns(|EncodeFields(fs)|, fault) ==> UnmarshalFrom(d, 0, m) == Panicked(ApplyAll(fs, m))
    ensures fault.InField? && fault.f.PastEnd? && !OverrunsAlone(fault) && !Overruns(|EncodeFields(fs)|, fault) ==>
      UnmarshalFrom(d, 0, m) == Failed(ApplyAll(fs, m), UnexpectedEof)
  {
    hide UnmarshalFrom, ApplyAll, ValidFields, EncodeFields, SoFar, HasFlaw, KnownFlaw, BodyEnd, Base, Number;
    assert d[0..] == d;
    UnmarshalWalks(d, 0, fs, tail, m);
    var i, m' := |EncodeFields(fs)|, ApplyAll(fs, m);
    if fault.InField? {
      TypeHasTag(fault.rest, fault.f);
      FieldRefused(d, i, fault.n, fault.rest, fault.f, m');
    } else {
      SliceAt(d, i, 0, fault.tag);
      TagRefused(d, i, fault.tag, m');
    }
  }

  /** Two varints at one place have one value. */
  lemma SameNumber(tail: Bytes, a: Bytes, b: Bytes)
    requires IsVarint(a) && At(tail, 0, a) && IsVarint(b) && At(tail, 0, b)
    ensures Number(a) == Number(b)
  {
    ScanVarintValue(tail, 0, a);
    ScanVarintValue(tail, 0, b);
    hide Value, ScanVarint, FieldNumber;
  }

  lemma UnknownStops(d: Bytes, i: nat, m: Msg)
    requires i < |d| < MAX_SLICE && UnknownAt(d, i, m).Stop?
    ensures !(Skip(d[i..]).Skipped? && 0 <= Skip(d[i..]).n <= |d| - i)
  {
    hide Skip;
  }

  lemma NoBareTag(tail: Bytes, tag: Bytes, f: Flaw)
    requires IsVarint(tag) && At(tail, 0, tag) && HasFlaw(tail, f)
    ensures !f.CutTag? && !f.LongTag?
  {
    assert tail[|tag| - 1] == tag[|tag| - 1] < 128 by {
      assert tail[0..|tag|][|tag| - 1] == tag[|tag| - 1];
    }
  }

  lemma UnknownFault(d: Bytes, i: nat, tag: Bytes, m: Msg) returns (fault: Fault)
    requires i < |d| < MAX_SLICE && IsVarint(tag) && At(d[i..], 0, tag) && Number(tag) > 3
    requires UnknownAt(d, i, m).Stop?
    ensures HasFault(d[i..], fault)
  {
    hide Skip, UnknownAt, HasFlaw, Number, IsVarint, NestBytes, Nested, At;
    UnknownStops(d, i, m);
    var tail := d[i..];
    var n, rest, f := SkipClassified(tail);
    fault := InField(n, rest, f);
    if n.Here? {
      NestsHere(rest);
      NoBareTag(tail, tag, f);
    }
    FirstTagAt(tail, n, rest, f);
    SameNumber(tail, tag, FirstTag(n, f));
  }

  lemma TypeFault(d: Bytes, i: nat, tag: Bytes, m: Msg) returns (fault: Fault)
    requires i < |d| < MAX_SLICE && Tagged(tag, 0) && At(d[i..], 0, tag) && Number(tag) == 1
    requires KnownField(d, i + |tag|, 1, 0, m).Stop?
    ensures HasFault(d[i..], fault)
  {
    hide ScanVarint, Value, Number, Unfinished, Endless;
    var tail, k := d[i..], i + |tag|;
    var b := VarintOrNot(d, k);
    assert tail[|tag|..] == d[k..];
    if Varint64(d, k).Done? {
      ScanVarintValue(d, k, b);
    }
    SameKind(d, k);
    NestsHere(tail);
    fault := InField(Here, tail, if Varint64(d, k).Truncated? then CutNumber(tag) else LongNumber(tag));
  }

  /** Both decode loops stop for the same reason. */
  lemma SameKind(d: Bytes, k: nat)
    requires k <= |d|
    ensures Varint64(d, k).Done? <==> Varint32(d, k).Done?
  {
    hide ScanVarint, Value, Unfinished, Endless, IsVarint;
    var b := VarintOrNot(d, k);
    if Varint64(d, k).Done? {
      ScanVarintValue(d, k, b);
    } else if Varint64(d, k).Truncated? {
      ScanUnfinished(d, k);
    } else {
      ScanEndless(d, k);
    }
  }

  lemma KnownStops(d: Bytes, k: nat, number: nat, b: Bytes, m: Msg)
    requires k <= |d| < MAX_SLICE && 2 <= number <= 3 && KnownField(d, k, number, 2, m).Stop?
    requires Varint64(d, k) == Done(Value(b) % U64, k + |b|)
    ensures Value(b) % U64 >= INT64_LIMIT || k + |b| + Value(b) % U64 > |d|
  {
    hide Varint64, Value;
  }

  lemma BodyFault(d: Bytes, i: nat, tag: Bytes, m: Msg) returns (fault: Fault)
    requires i < |d| < MAX_SLICE && Tagged(tag, 2) && At(d[i..], 0, tag) && 2 <= Number(tag) <= 3
    requires i + |tag| <= |d| && KnownField(d, i + |tag|, Number(tag), 2, m).Stop?
    ensures HasFault(d[i..], fault)
  {
    hide Varint64, KnownField, Value, Number, Unfinished, Endless, IsVarint;
    var tail, k := d[i..], i + |tag|;
    var b := VarintOrNot(d, k);
    assert tail[|tag|..] == d[k..];
    NestsHere(tail);
    if Varint64(d, k).Done? {
      KnownStops(d, k, Number(tag), b, m);
      assert tail[|tag|..|tag| + |b|] == d[k..k + |b|];
      AtJoin(tail, 0, tag, b);
      fault := InField(Here, tail, if Value(b) % U64 >= INT64_LIMIT then NegativeLength(tag, b) else PastEnd(tag, b));
    } else {
      fault := InField(Here, tail, if Varint64(d, k).Truncated? then CutLength(tag) else LongLength(tag));
    }
  }

  lemma KnownFault(d: Bytes, i: nat, tag: Bytes, m: Msg) returns (fault: Fault)
    requires i < |d| < MAX_SLICE && IsVarint(tag) && At(d[i..], 0, tag) && Known(tag) && tag[0] % 8 != 4
    requires FieldAt(d, i, m).Stop?
    ensures HasFault(d[i..], fault)
  {
    hide ScanVarint, Value, Number, KnownField, FieldAt;
    if tag[0] % 8 != TypeOf(Number(tag)) {
      fault := WrongType(tag);
    } else {
      SliceAt(d, i, 0, tag);
      KnownAhead(d, i, tag, m);
      if Number(tag) == 1 {
        fault := TypeFault(d, i, tag, m);
      } else {
        fault := BodyFault(d, i, tag, m);
      }
    }
  }

  lemma FaultHere(d: Bytes, i: nat, m: Msg) returns (fault: Fault)
    requires i < |d| < MAX_SLICE && FieldAt(d, i, m).Stop?
    ensures HasFault(d[i..], fault)
  {
    hide ScanVarint, Value, FieldAt, Number, Unfinished, Endless;
    var tail := d[i..];
    var tag := VarintOrNot(d, i);
    if !Varint64(d, i).Done? {
      NestsHere(tail);
      fault := InField(Here, tail, if Varint64(d, i).Truncated? then CutTag else LongTag);
    } else {
      assert tail[0..|tag|] == d[i..i + |tag|];
      if tag[0] % 8 == 4 {
        fault := StrayEnd(tag);
      } else if Number(tag) <= 0 {
        fault := BadNumber(tag);
      } else if Number(tag) <= 3 {
        fault := KnownFault(d, i, tag, m);
      } else {
        UnknownAhead(d, i, tag, m);
        fault := UnknownFault(d, i, tag, m);
      }
    }
  }

  lemma StumblesLater(d: Bytes, i: nat, f: Field, fs: seq<Field>, tail: Bytes)
    requires i <= |d| && At(d, i, FieldBytes(f)) && ValidField(f)
    requires ValidFields(fs) && d[i + |FieldBytes(f)|..] == EncodeFields(fs) + tail
    ensures ValidFields([f] + fs) && d[i..] == EncodeFields([f] + fs) + tail
  {
    hide FieldBytes, ValidField;
    assert ([f] + fs)[1..] == fs;
    Associative(FieldBytes(f), EncodeFields(fs), tail);
    assert d[i..] == FieldBytes(f) + d[i + |FieldBytes(f)|..];
  }

  /** Conversely every input that Unmarshal does not accept is whole fields and then such a fault. */
  lemma {:induction false} UnmarshalClassified(d: Bytes, i: nat, m: Msg)
    returns (fs: seq<Field>, tail: Bytes, fault: Fault)
    requires i <= |d| < MAX_SLICE && !UnmarshalFrom(d, i, m).Finished?
    ensures StumblesAt(d[i..], fs, tail, fault)
    decreases |d| - i
  {
    hide FieldAt, HasFault, FieldBytes, Apply, ValidField;
    if FieldAt(d, i, m).Stop? {
      fs, tail := [], d[i..];
      assert [] + tail == tail;
      fault := FaultHere(d, i, m);
    } else {
      var f := FieldOnly(d, i, m);
      var j := i + |FieldBytes(f)|;
      AtBounds(d, i, f);
      fs, tail, fault := UnmarshalClassified(d, j, Apply(f, m));
      StumblesLater(d, i, f, fs, tail);
      fs := [f] + fs;
    }
  }

  lemma AtBounds(d: Bytes, i: nat, f: Field)
    requires ValidField(f) && At(d, i, FieldBytes(f))
    ensures i < i + |FieldBytes(f)| <= |d|
  {
    FieldNonEmpty(f);
  }

  /**
   Exactly when Unmarshal panics: on whole fields followed by one, or by a group, that declares a body
   ending past the greatest int, where skipFrame has not noticed the wrap-around by itself.
   */
  lemma UnmarshalPanicsExactly(d: Bytes, m: Msg)
    requires |d| < MAX_SLICE
    ensures UnmarshalFrom(d, 0, m).Panicked?
      <==> exists fs, tail, fault :: StumblesAt(d, fs, tail, fault) && Overruns(|EncodeFields(fs)|, fault)
  {
    hide StumblesAt, UnmarshalFrom;
    assert d[0..] == d;
    if UnmarshalFrom(d, 0, m).Panicked? {
      var fs, tail, fault := UnmarshalClassified(d, 0, m);
      UnmarshalRefuses(d, fs, tail, fault, m);
      OnlyOverruns(fs, fault);
    } else if exists fs, tail, fault :: StumblesAt(d, fs, tail, fault) && Overruns(|EncodeFields(fs)|, fault) {
      var fs, tail, fault :| StumblesAt(d, fs, tail, fault) && Overruns(|EncodeFields(fs)|, fault);
      UnmarshalRefuses(d, fs, tail, fault, m);
    }
  }

  /** There is no other way for a fault to end. */
  lemma OnlyOverruns(fs: seq<Field>, fault: Fault)
    ensures || fault.StrayEnd? || fault.BadNumber? || fault.WrongType?
            || EndsEarly(fault.f) || fault.f.CutFixed? || GoesOn(fault.f) || fault.f.NoSuchType?
            || fault.f.NegativeLength? || OverrunsAlone(fault) || fault.f.PastEnd?
  {
  }

  /** The same for skipFrame on an input that is not empty: only a record inside a group makes it panic. */
  lemma SkipPanicsExactly(d: Bytes)
    requires d != [] && |d| < MAX_SLICE
    ensures Skip(d) == SkipPanic
      <==> exists n, rest, f :: FlawedAt(d, n, rest, f) && n.Inside? && f.PastEnd?
             && Base(n) + BodyEnd(f.tag, f.length) >= INT64_LIMIT
  {
    hide Skip, HasFlaw, NestBytes, Nested, Base, BodyEnd;
    if Skip(d) == SkipPanic {
      var n, rest, f := SkipClassified(d);
      SkipRefuses(d, n, rest, f);
      assert FlawedAt(d, n, rest, f);
    } else if exists n, rest, f :: FlawedAt(d, n, rest, f) && n.Inside? && f.PastEnd?
                && Base(n) + BodyEnd(f.tag, f.length) >= INT64_LIMIT {
      var n, rest, f :| FlawedAt(d, n, rest, f) && n.Inside? && f.PastEnd?
                && Base(n) + BodyEnd(f.tag, f.length) >= INT64_LIMIT;
      SkipRefuses(d, n, rest, f);
    }
  }

  predicate FlawedAt(d: Bytes, n: Nest, rest: Bytes, f: Flaw) {
    d == NestBytes(n) + rest && Nested(n) && HasFlaw(rest, f)
  }

  /** `p` is all of `whole` but its end. */
  predicate CutOff(p: Bytes, whole: Bytes) {
    |p| < |whole| && p == whole[..|p|]
  }

  lemma CutVarint(p: Bytes, b: Bytes)
    requires IsVarint(b) && CutOff(p, b)
    ensures Unfinished(p)
  {
    assert forall k :: 0 <= k < |p| ==> p[k] == b[k];
  }

  /** A cut ends in the first part or in the second. */
  lemma CutPair(p: Bytes, a: Bytes, b: Bytes)
    requires CutOff(p, a + b)
    ensures |p| < |a| ==> CutOff(p, a)
    ensures |p| >= |a| ==> At(p, 0, a) && p == a + p[|a|..] && CutOff(p[|a|..], b)
  {
    if |p| < |a| {
      assert p == (a + b)[..|p|] == a[..|p|];
    } else {
      assert p[..|a|] == (a + b)[..|a|] == a;
      assert p[|a|..] == (a + b)[|a|..|p|] == b[..|p| - |a|];
    }
  }

  /** A flaw that is no more than the input's end, in a record of at most `size` bytes. */
  predicate JustCut(f: Flaw, base: nat, size: nat) {
    EndsEarly(f) || f.CutFixed? || (f.PastEnd? && base + BodyEnd(f.tag, f.length) <= size)
  }

  lemma CutScalar(r: Record, p: Bytes) returns (f: Flaw)
    requires WellFormed(r) && !r.GroupRecord? && CutOff(p, Encode(r)) && |Encode(r)| < MAX_SLICE
    ensures HasFlaw(p, f) && JustCut(f, 0, |Encode(r)|)
    ensures |p| < |r.tag| ==> f == CutTag
    ensures |p| >= |r.tag| ==> !f.CutTag? && !f.LongTag? && f.tag == r.tag
    ensures |p| >= |r.tag| && r.VarintRecord? ==> f.CutNumber?
    ensures |p| >= |r.tag| && r.LengthRecord? ==> f.CutLength? || f.PastEnd?
  {
    hide Value, IsVarint, Unfinished;
    var tag := r.tag;
    CutPair(p, tag, Encode(r)[|tag|..]);
    assert Encode(r) == tag + Encode(r)[|tag|..];
    if |p| < |tag| {
      CutVarint(p, tag);
      f := CutTag;
    } else {
      match r
      case VarintRecord(_, value) =>
        CutVarint(p[|tag|..], value);
        f := CutNumber(tag);
      case LengthRecord(_, length, body) =>
        CutPair(p[|tag|..], length, body);
        if |p| < |tag| + |length| {
          CutVarint(p[|tag|..], length);
          f := CutLength(tag);
        } else {
          assert At(p, 0, tag + length);
          f := PastEnd(tag, length);
        }
      case _ => f := CutFixed(tag);
    }
  }

  lemma {:induction false} CutRecord(r: Record, p: Bytes) returns (n: Nest, rest: Bytes, f: Flaw)
    requires WellFormed(r) && CutOff(p, Encode(r)) && p != [] && |Encode(r)| < MAX_SLICE
    ensures FlawedAt(p, n, rest, f) && JustCut(f, Base(n), |Encode(r)|)
    ensures n.Inside? ==> n.tag == r.tag
    ensures n.Here? ==> rest == p && (f == CutTag || (!f.CutTag? && !f.LongTag? && f.tag == r.tag))
    decreases r, 0
  {
    hide HasFlaw, CutOff;
    n, rest := Here, p;
    NestsHere(p);
    if !r.GroupRecord? {
      f := CutScalar(r, p);
    } else {
      var tag, inside := r.tag, EncodeItems(r.items) + r.end;
      CutPair(p, tag, inside);
      if |p| < |tag| {
        CutVarint(p, tag);
        f := CutTag;
        BareTag(p, f);
      } else {
        var items, inner;
        items, inner, rest, f := CutItems(r.items, r.end, p[|tag|..]);
        n := Inside(tag, items, inner);
        NestsInside(p, tag, items, inner, rest);
      }
    }
  }

  lemma {:induction false} CutItems(all: Items, end: Bytes, q: Bytes)
    returns (items: Items, n: Nest, rest: Bytes, f: Flaw)
    requires AllWellFormed(all) && Tagged(end, 4) && CutOff(q, EncodeItems(all) + end)
    requires |EncodeItems(all) + end| < MAX_SLICE
    ensures AllWellFormed(items) && Nested(n) && HasFlaw(rest, f)
    ensures q == EncodeItems(items) + (NestBytes(n) + rest)
    ensures JustCut(f, if n.Here? then |EncodeItems(items)| else Base(n), |EncodeItems(all)|)
    decreases all, 1
  {
    hide HasFlaw, CutOff;
    items, n, rest := NoItems, Here, q;
    NestsHere(q);
    assert q == [] + (NestBytes(Here) + q);
    match all
    case NoItems =>
      assert EncodeItems(all) + end == end;
      CutVarint(q, end);
      f := CutTag;
      BareTag(q, f);
    case Item(head, tail) =>
      var e, more := Encode(head), EncodeItems(tail) + end;
      assert EncodeItems(all) + end == e + more;
      CutPair(q, e, more);
      if |q| >= |e| {
        var done;
        done, n, rest, f := CutItems(tail, end, q[|e|..]);
        items := Item(head, done);
        Associative(e, EncodeItems(done), NestBytes(n) + rest);
      } else if q == [] {
        f := CutTag;
        BareTag(q, f);
      } else {
        n, rest, f := CutRecord(head, q);
        assert q == [] + (NestBytes(n) + rest);
      }
  }

  /** Cutting a field of the message itself. */
  lemma CutKnown(g: Field, p: Bytes) returns (f: Flaw)
    requires ValidField(g) && !g.UnknownField? && CutOff(p, FieldBytes(g)) && p != [] && |FieldBytes(g)| < MAX_SLICE
    ensures HasFlaw(p, f) && JustCut(f, 0, |FieldBytes(g)|) && (f == CutTag || KnownFlaw(f))
    ensures g.TypeField? && |p| >= |g.tag| ==> f == CutNumber(g.tag)
    ensures !g.TypeField? || |p| < |g.tag| ==> !f.CutNumber?
    ensures g.TypeField? ==> !f.PastEnd?
  {
    hide Value, IsVarint, FieldNumber;
    var r := match g
      case TypeField(tag, value) => VarintRecord(tag, value)
      case CmdField(tag, length, body) => LengthRecord(tag, length, body)
      case PayloadField(tag, length, body) => LengthRecord(tag, length, body)
      case UnknownField(r) => r;
    f := CutScalar(r, p);
  }

  /** What a field of which only `p` is there does to the message. */
  function CutEffect(g: Field, p: Bytes, m: Msg): Msg {
    if g.TypeField? && |p| >= |g.tag| then m.(typ := Value(p[|g.tag|..]) % U32) else m
  }

  /** A field that the input ends in, at the fault it makes. */
  lemma CutField(g: Field, p: Bytes) returns (fault: Fault)
    requires ValidField(g) && CutOff(p, FieldBytes(g)) && p != [] && |FieldBytes(g)| < MAX_SLICE
    ensures HasFault(p, fault) && fault.InField? && JustCut(fault.f, Base(fault.n), |FieldBytes(g)|)
    ensures forall m :: SoFar(fault, m) == CutEffect(g, p, m)
    ensures g.TypeField? ==> !fault.f.PastEnd?
  {
    hide HasFlaw, CutOff, FieldNumber, Value;
    if g.UnknownField? {
      var n, rest, f := CutRecord(g.rec, p);
      fault := InField(n, rest, f);
    } else {
      var f := CutKnown(g, p);
      NestsHere(p);
      fault := InField(Here, p, f);
    }
  }

  /**
   The truncation law: an input that ends inside a field is refused as one that ends too early, and the
   message has the whole fields in front, and of an unfinished type what was read of it.
   */
  lemma UnmarshalTruncated(d: Bytes, fs: seq<Field>, g: Field, p: Bytes, m: Msg)
    requires |d| < MAX_SLICE && d == EncodeFields(fs) + p && ValidFields(fs)
    requires ValidField(g) && CutOff(p, FieldBytes(g)) && p != [] && |FieldBytes(g)| < MAX_SLICE
    ensures !g.TypeField? || |p| < |g.tag| ==> UnmarshalFrom(d, 0, m) == Failed(ApplyAll(fs, m), UnexpectedEof)
    ensures g.TypeField? && |p| >= |g.tag| ==>
      UnmarshalFrom(d, 0, m) == Failed(ApplyAll(fs, m).(typ := Value(p[|g.tag|..]) % U32), UnexpectedEof)
  {
    hide UnmarshalFrom, HasFault, SoFar, ApplyAll, EncodeFields, ValidFields, ValidField, FieldBytes, BodyEnd, CutOff, Value;
    var fault := CutField(g, p);
    CutFits(fault, |EncodeFields(fs)|, |FieldBytes(g)|);
    UnmarshalRefuses(d, fs, p, fault, m);
  }

  /** A body that was there cannot overrun. */
  lemma CutFits(fault: Fault, i: nat, size: nat)
    requires fault.InField? && JustCut(fault.f, Base(fault.n), size) && i < MAX_SLICE && size < MAX_SLICE
    ensures !Overruns(i, fault) && !OverrunsAlone(fault)
  {
    hide BodyEnd, Number;
  }
}
