/** Base 128 varints, as the generated codec of testdata/frame.pb.go reads and writes them. */
module Varint {
  import opened Bytes

  lemma Pow2Seven(n: nat)
    ensures Pow2(n + 7) == 128 * Pow2(n)
  {
    assert Pow2(n + 7) == 2 * Pow2(n + 6) == 4 * Pow2(n + 5) == 8 * Pow2(n + 4);
    assert Pow2(n + 4) == 2 * Pow2(n + 3) == 4 * Pow2(n + 2) == 8 * Pow2(n + 1);
  }

  lemma {:induction false} Pow2Sum(a: nat, b: nat)
    ensures Pow2(a + b) == Pow2(a) * Pow2(b)
  {
    if a == 0 {
    } else {
      Pow2Sum(a - 1, b);
      assert Pow2(a + b) == 2 * Pow2(a - 1 + b);
      assert 2 * (Pow2(a - 1) * Pow2(b)) == 2 * Pow2(a - 1) * Pow2(b);
    }
  }

  lemma ModOffset(x: nat, q: nat, width: nat)
    requires x < width
    ensures (x + q * width) % width == x
  {
    var r := (x + q * width) / width;
    assert (x + q * width) % width == x + q * width - r * width;
    if r > q {
      ScaledMonotone(q + 1, r, width);
    } else if r < q {
      ScaledMonotone(r + 1, q, width);
    }
  }

  /** Bitwise or. */
  function Or(x: nat, y: nat): nat
    decreases x + y
  {
    if x == 0 && y == 0 then 0 else (if x % 2 == 1 || y % 2 == 1 then 1 else 0) + 2 * Or(x / 2, y / 2)
  }

  lemma {:induction false} OrZero(x: nat)
    ensures Or(0, x) == x == Or(x, 0)
    decreases x
  {
    if x == 0 {
    } else {
      OrZero(x / 2);
    }
  }

  lemma OrHalves(x: nat, y: nat)
    ensures Or(x, 2 * y) == x % 2 + 2 * Or(x / 2, y)
  {
  }

  /** Where the bits of one operand end below those of the other, or is addition. */
  lemma {:induction false} OrDisjoint(low: nat, k: nat, shift: nat)
    requires low < Pow2(shift)
    ensures Or(low, k * Pow2(shift)) == low + k * Pow2(shift)
    decreases shift
  {
    hide Or;
    if shift == 0 {
      OrZero(k);
    } else {
      var p := Pow2(shift - 1);
      OrDisjoint(low / 2, k, shift - 1);
      OrHalves(low, k * p);
      Doubled(k, p);
    }
  }

  lemma Doubled(k: nat, p: nat)
    ensures k * (2 * p) == 2 * (k * p)
  {
  }

  lemma SplitProduct(q: nat, m: nat, k: nat, p: nat)
    ensures (q * m + k) * p == k * p + q * (m * p)
    ensures (k + 1) * p == k * p + p
  {
    assert (q * m + k) * p == q * m * p + k * p;
    assert q * m * p == q * (m * p);
  }

  lemma ShiftedGroup(g: nat, shift: nat, bits: nat)
    requires shift < bits
    ensures var k, p := g % Pow2(bits - shift), Pow2(shift);
      g * p % Pow2(bits) == k * p && k * p + p <= Pow2(bits)
  {
    hide Pow2;
    var m, p := Pow2(bits - shift), Pow2(shift);
    Pow2Sum(bits - shift, shift);
    var k, q := g % m, g / m;
    assert g == q * m + k;
    ScaledMonotone(k + 1, m, p);
    SplitProduct(q, m, k, p);
    ModOffset(k * p, q, m * p);
  }

  lemma ShiftedOut(g: nat, shift: nat, bits: nat)
    requires shift >= bits
    ensures g * Pow2(shift) % Pow2(bits) == 0
  {
    hide Pow2;
    var m, p := Pow2(shift - bits), Pow2(bits);
    Pow2Sum(shift - bits, bits);
    SplitProduct(g, m, 0, p);
    assert g * (m * p) == g * m * p;
    ModOffset(0, g * m, p);
  }

  /**
   The step of every decode loop: or-ing a group of seven bits, shifted within the word (and out of
   it, as field Type's loop does past 31), adds it modulo the word.
   */
  lemma OrIsAddition(acc: nat, g: nat, shift: nat, width: nat)
    requires Word(width) && acc < width
    requires g < 128 && acc < Pow2(shift)
    ensures Or(acc, g * Pow2(shift) % width) == (acc + g * Pow2(shift)) % width
    ensures (acc + g * Pow2(shift)) % width < Pow2(shift + 7)
  {
    hide Or, Pow2;
    Pow2Facts();
    OrInWord(acc, g, shift, width, if width == U32 then 32 else 64);
    Pow2Seven(shift);
    ScaledMonotone(g, 127, Pow2(shift));
    ModBelow(acc + g * Pow2(shift), width);
  }

  lemma ModBelow(x: nat, width: nat)
    requires Word(width)
    ensures width > 0 && x % width <= x
    ensures x < width ==> x % width == x
  {
    if width == U32 {
      assert x % U32 <= x;
    }
  }

  lemma OrInWord(acc: nat, g: nat, shift: nat, width: nat, bits: nat)
    requires Word(width) && width == Pow2(bits) && acc < width && acc < Pow2(shift)
    ensures Or(acc, g * Pow2(shift) % width) == (acc + g * Pow2(shift)) % width
  {
    hide Or, Pow2, Word;
    var x, p := g * Pow2(shift), Pow2(shift);
    if shift >= bits {
      ShiftedOut(g, shift, bits);
      OrZero(acc);
      AddBelow(acc, x, 0, width, width);
    } else {
      var k := g % Pow2(bits - shift);
      ShiftedGroup(g, shift, bits);
      OrDisjoint(acc, k, shift);
      AddBelow(acc, x, k * p, p, width);
    }
  }

  lemma AddBelow(acc: nat, x: nat, cut: nat, p: nat, width: nat)
    requires Word(width)
    requires x % width == cut && acc < p && cut + p <= width
    ensures (acc + x) % width == acc + cut
  {
    hide Word;
    ModStep(x, acc, width);
    ModBelow(cut + acc, width);
  }

  /** The bytes that encodeVarintFrame writes. */
  function EncodeVarint(v: nat): (b: Bytes)
    ensures |b| >= 1
  {
    if v < 128 then [v] else [v % 128 + 128] + EncodeVarint(v / 128)
  }

  /** At most ten bytes, with the continuation bit on all of them but the last. */
  predicate IsVarint(b: Bytes) {
    1 <= |b| <= 10 && Chained(b)
  }

  predicate Chained(b: Bytes)
    requires |b| >= 1
  {
    b[|b| - 1] < 128 && forall i :: 0 <= i < |b| - 1 ==> b[i] >= 128
  }

  /** The number that a chain of seven-bit groups stands for, least significant group first. */
  function Value(b: Bytes): nat {
    if b == [] then 0 else b[0] % 128 + 128 * Value(b[1..])
  }

  /** How a decode loop ends: with a value, after a shift of 64 or more, or out of input. */
  datatype Scan = Done(value: nat, next: nat) | Overlong(value: nat) | Truncated(value: nat)

  /** The widths of the words that the source decodes into. */
  predicate Word(width: nat) {
    width == U32 || width == U64
  }

  function ScanVarint(d: Bytes, i: nat, shift: nat, acc: nat, width: nat): (r: Scan)
    requires i <= |d|
    requires Word(width)
    ensures r.Done? ==> i < r.next <= |d|
    decreases |d| - i
  {
    if shift >= 64 then Overlong(acc)
    else if i >= |d| then Truncated(acc)
    else
      var acc' := (acc + d[i] % 128 * Pow2(shift)) % width;
      if d[i] < 128 then Done(acc', i + 1) else ScanVarint(d, i + 1, shift + 7, acc', width)
  }

  /** A varint read from `i` into a 64-bit word. */
  function Varint64(d: Bytes, i: nat): (r: Scan)
    requires i <= |d|
    ensures r.Done? ==> i < r.next <= |d| && r.value < U64
  {
    ScannedBelow(d, i, 0, 0, U64);
    ScanVarint(d, i, 0, 0, U64)
  }

  /** A varint read from `i` into a 32-bit word. */
  function Varint32(d: Bytes, i: nat): (r: Scan)
    requires i <= |d|
    ensures r.value < U32
    ensures r.Done? ==> i < r.next <= |d|
  {
    ScannedBelow(d, i, 0, 0, U32);
    ScanVarint(d, i, 0, 0, U32)
  }

  lemma {:induction false} ScannedBelow(d: Bytes, i: nat, shift: nat, acc: nat, width: nat)
    requires i <= |d|
    requires Word(width) && acc < width
    ensures ScanVarint(d, i, shift, acc, width).value < width
    decreases |d| - i
  {
    if shift < 64 && i < |d| && d[i] >= 128 {
      ScannedBelow(d, i + 1, shift + 7, (acc + d[i] % 128 * Pow2(shift)) % width, width);
    }
  }

  lemma ModStep(x: nat, y: nat, width: nat)
    requires Word(width)
    ensures (x % width + y) % width == (x + y) % width
  {
  }

  lemma FoldStep(acc: nat, low: nat, p: nat, v: nat, width: nat)
    requires Word(width)
    ensures ((acc + low * p) % width + 128 * p * v) % width == (acc + p * (low + 128 * v)) % width
  {
    ModStep(acc + low * p, 128 * p * v, width);
    assert p * (128 * v) == 128 * p * v;
  }

  lemma ScanRound(d: Bytes, i: nat, shift: nat, acc: nat, width: nat)
    requires i < |d| && shift < 64 && Word(width)
    ensures var acc' := (acc + d[i] % 128 * Pow2(shift)) % width;
      ScanVarint(d, i, shift, acc, width) ==
      if d[i] < 128 then Done(acc', i + 1) else ScanVarint(d, i + 1, shift + 7, acc', width)
  {
    hide Pow2;
  }

  lemma ChainHead(d: Bytes, i: nat, b: Bytes)
    requires b != [] && Chained(b) && At(d, i, b)
    ensures i < |d| && d[i] == b[0] && (b[0] < 128 <==> |b| == 1)
    ensures |b| > 1 ==> Chained(b[1..])
  {
    assert d[i] == d[i..i + |b|][0];
  }

  lemma ChainTail(d: Bytes, i: nat, b: Bytes)
    requires b != [] && At(d, i, b)
    ensures At(d, i + 1, b[1..])
    ensures Value(b) == b[0] % 128 + 128 * Value(b[1..])
    ensures |b| == 1 ==> Value(b[1..]) == 0
  {
    assert b == [b[0]] + b[1..];
    AtSplit(d, i, [b[0]], b[1..]);
  }

  lemma {:induction false} ScanFrom(d: Bytes, i: nat, b: Bytes, shift: nat, acc: nat, width: nat)
    requires |b| >= 1 && Chained(b)
    requires At(d, i, b)
    requires shift + 7 * |b| <= 70
    requires Word(width)
    ensures ScanVarint(d, i, shift, acc, width) == Done((acc + Pow2(shift) * Value(b)) % width, i + |b|)
    decreases |b|
  {
    hide Pow2, Word, ScanVarint, Chained, At, Value;
    ModBelow(0, width);
    ChainHead(d, i, b);
    ChainTail(d, i, b);
    ScanRound(d, i, shift, acc, width);
    var p, low, rest := Pow2(shift), b[0] % 128, b[1..];
    if |b| == 1 {
      assert p * Value(b) == low * p;
    } else {
      ScanFrom(d, i + 1, rest, shift + 7, (acc + low * p) % width, width);
      Pow2Seven(shift);
      FoldStep(acc, low, p, Value(rest), width);
    }
  }

  /** Any varint in the input, canonical or not, reads as its value cut to the width of the target word. */
  lemma ScanVarintValue(d: Bytes, i: nat, b: Bytes)
    requires IsVarint(b)
    requires At(d, i, b)
    ensures Varint64(d, i) == Done(Value(b) % U64, i + |b|)
    ensures Varint32(d, i) == Done(Value(b) % U32, i + |b|)
  {
    hide ScanVarint, Value, At, Chained;
    ScanFrom(d, i, b, 0, 0, U64);
    ScanFrom(d, i, b, 0, 0, U32);
    assert Pow2(0) == 1;
  }

  lemma {:induction false} ScanOnly(d: Bytes, i: nat, shift: nat, acc: nat, width: nat) returns (b: Bytes)
    requires i <= |d|
    requires Word(width)
    requires ScanVarint(d, i, shift, acc, width).Done?
    ensures At(d, i, b) && |b| >= 1 && Chained(b)
    ensures shift + 7 * |b| <= 70
    ensures ScanVarint(d, i, shift, acc, width).next == i + |b|
    decreases |d| - i
  {
    if d[i] < 128 {
      b := [d[i]];
    } else {
      var rest := ScanOnly(d, i + 1, shift + 7, (acc + d[i] % 128 * Pow2(shift)) % width, width);
      b := [d[i]] + rest;
      assert At(d, i, [d[i]]);
      AtJoin(d, i, [d[i]], rest);
    }
  }

  /** Conversely a decode loop succeeds on nothing else. */
  lemma ScanVarintOnly(d: Bytes, i: nat, width: nat) returns (b: Bytes)
    requires i <= |d|
    requires Word(width)
    requires ScanVarint(d, i, 0, 0, width).Done?
    ensures IsVarint(b) && At(d, i, b)
    ensures ScanVarint(d, i, 0, 0, width) == Done(Value(b) % width, i + |b|)
  {
    b := ScanOnly(d, i, 0, 0, width);
    ScanFrom(d, i, b, 0, 0, width);
  }

  /** A run of bytes that all announce another one. */
  predicate Open(b: Bytes) {
    forall k :: 0 <= k < |b| ==> b[k] >= 128
  }

  /** The input ends before the varint does. */
  predicate Unfinished(b: Bytes) {
    |b| < 10 && Open(b)
  }

  /** Ten bytes, and the varint still goes on. */
  predicate Endless(b: Bytes) {
    |b| >= 10 && Open(b[..10])
  }

  lemma OpenHead(d: Bytes, i: nat, b: Bytes)
    requires b != [] && Open(b) && At(d, i, b)
    ensures i < |d| && d[i] == b[0] >= 128 && Open(b[1..])
  {
    assert d[i] == d[i..i + |b|][0];
  }

  lemma {:induction false} ScanAhead(d: Bytes, i: nat, b: Bytes, shift: nat, acc: nat, width: nat)
    requires Open(b) && At(d, i, b)
    requires shift + 7 * |b| <= 70
    requires Word(width) && acc < width
    ensures ScanVarint(d, i, shift, acc, width)
         == ScanVarint(d, i + |b|, shift + 7 * |b|, (acc + Pow2(shift) * Value(b)) % width, width)
    decreases |b|
  {
    hide Pow2, Word, ScanVarint, Open, At, Value;
    ModBelow(acc, width);
    if b == [] {
      assert Value(b) == 0 by {
        NoValue();
      }
    } else {
      OpenHead(d, i, b);
      ChainTail(d, i, b);
      ScanRound(d, i, shift, acc, width);
      var p, low, rest := Pow2(shift), b[0] % 128, b[1..];
      var acc' := (acc + low * p) % width;
      ModRange(acc + low * p, width);
      ScanAhead(d, i + 1, rest, shift + 7, acc', width);
      Pow2Seven(shift);
      FoldStep(acc, low, p, Value(rest), width);
    }
  }

  lemma ModRange(x: nat, width: nat)
    requires Word(width)
    ensures width > 0 && x % width < width
  {
  }

  lemma NoValue()
    ensures Value([]) == 0
  {
  }

  /** Where the input ends too early every decode loop says so, with the groups it has seen. */
  lemma ScanUnfinished(d: Bytes, i: nat)
    requires i <= |d| && Unfinished(d[i..])
    ensures Varint64(d, i) == Truncated(Value(d[i..]) % U64)
    ensures Varint32(d, i) == Truncated(Value(d[i..]) % U32)
  {
    ScanAhead(d, i, d[i..], 0, 0, U64);
    ScanAhead(d, i, d[i..], 0, 0, U32);
    assert Pow2(0) == 1;
    hide Value, Pow2;
  }

  /** And where it goes on for too long, after ten groups. */
  lemma ScanEndless(d: Bytes, i: nat)
    requires i <= |d| && Endless(d[i..])
    ensures Varint64(d, i) == Overlong(Value(d[i..][..10]) % U64)
    ensures Varint32(d, i) == Overlong(Value(d[i..][..10]) % U32)
  {
    var b := d[i..][..10];
    assert At(d, i, b);
    ScanAhead(d, i, b, 0, 0, U64);
    ScanAhead(d, i, b, 0, 0, U32);
    assert Pow2(0) == 1;
    hide Value, Pow2;
  }

  /** There is nothing else: a varint, the end too early, or a run that is too long. */
  lemma VarintOrNot(d: Bytes, i: nat) returns (b: Bytes)
    requires i <= |d|
    ensures Varint64(d, i).Done? ==> IsVarint(b) && At(d, i, b) && Varint64(d, i) == Done(Value(b) % U64, i + |b|)
    ensures Varint64(d, i).Truncated? ==> Unfinished(d[i..])
    ensures Varint64(d, i).Overlong? ==> Endless(d[i..])
  {
    var k := 0;
    while k < 10 && i + k < |d| && d[i + k] >= 128
      invariant k <= 10 && i + k <= |d|
      invariant forall j :: i <= j < i + k ==> d[j] >= 128
    {
      k := k + 1;
    }
    b := [];
    if k == 10 {
      ScanEndless(d, i);
    } else if i + k == |d| {
      ScanUnfinished(d, i);
    } else {
      b := d[i..i + k + 1];
      ScanVarintValue(d, i, b);
    }
  }

  lemma {:induction false} EncodeChained(v: nat)
    ensures Chained(EncodeVarint(v))
  {
    if v < 128 {
    } else {
      EncodeChained(v / 128);
      var e, t := EncodeVarint(v), EncodeVarint(v / 128);
      assert e[1..] == t;
      assert forall i :: 0 < i < |e| ==> e[i] == t[i - 1];
    }
  }

  lemma {:induction false} EncodeValue(v: nat)
    ensures Value(EncodeVarint(v)) == v
  {
    var e := EncodeVarint(v);
    if v < 128 {
      assert e[1..] == [];
    } else {
      EncodeValue(v / 128);
      assert e[1..] == EncodeVarint(v / 128);
    }
  }

  lemma {:induction false} ValueBound(b: Bytes)
    ensures Value(b) < Pow2(7 * |b|)
  {
    if b == [] {
    } else {
      ValueBound(b[1..]);
      Pow2Seven(7 * |b| - 7);
    }
  }

  lemma {:induction false} EncodeLength(v: nat, n: nat)
    requires n >= 1
    ensures |EncodeVarint(v)| <= n <==> v < Pow2(7 * n)
  {
    Pow2Seven(7 * n - 7);
    if n == 1 {
      assert Pow2(0) == 1;
    } else if v < 128 {
    } else {
      EncodeLength(v / 128, n - 1);
      assert 7 * (n - 1) == 7 * n - 7;
    }
  }

  lemma Pow2Facts()
    ensures Pow2(32) == U32
    ensures Pow2(64) == U64
    ensures Pow2(70) >= U64
  {
    assert Pow2(8) == 256;
    Pow2Sum(8, 8);
    assert Pow2(16) == 0x1_0000;
    Pow2Sum(16, 16);
    Pow2Sum(32, 32);
    Pow2Sum(64, 6);
    assert Pow2(6) == 64;
  }

  lemma EncodeIsVarint(v: nat)
    requires v < U64
    ensures IsVarint(EncodeVarint(v)) && Value(EncodeVarint(v)) == v
  {
    hide EncodeVarint, Value, Pow2;
    EncodeChained(v);
    EncodeValue(v);
    Pow2Facts();
    EncodeLength(v, 10);
  }

  /**
   encodeVarintFrame's output is a varint that reads back as the value; sovFrame's count is the least
   number of groups that hold it; no varint with the same value is shorter.
   */
  lemma EncodeVarintInverse(v: nat, b: Bytes)
    requires v < U64
    requires IsVarint(b)
    ensures IsVarint(EncodeVarint(v)) && Value(EncodeVarint(v)) == v
    ensures Value(b) == v ==> |EncodeVarint(v)| <= |b|
  {
    hide EncodeVarint, Value, Pow2;
    EncodeIsVarint(v);
    ValueBound(b);
    EncodeLength(v, |b|);
  }

  /** The 64-bit loop on a canonical encoding followed by any suffix. */
  lemma DecodeEncoded(d: Bytes, i: nat, v: nat)
    requires v < U64
    requires At(d, i, EncodeVarint(v))
    ensures IsVarint(EncodeVarint(v))
    ensures Varint64(d, i) == Done(v, i + |EncodeVarint(v)|)
    ensures Varint32(d, i) == Done(v % U32, i + |EncodeVarint(v)|)
  {
    hide EncodeVarint, Value, ScanVarint, IsVarint, At;
    EncodeIsVarint(v);
    ScanVarintValue(d, i, EncodeVarint(v));
  }

  lemma LowThree(low: nat, rest: nat)
    ensures (low % 128 + 128 * rest) % 8 == low % 8
  {
  }

  lemma WordKeepsLowThree(v: nat)
    ensures v % U64 % 8 == v % 8
  {
  }

  /** The low bits of a varint are those of its first byte. */
  lemma LowBits(b: Bytes)
    requires b != []
    ensures Value(b) % 8 == b[0] % 8
    ensures Value(b) % U64 % 8 == b[0] % 8
  {
    LowThree(b[0], Value(b[1..]));
    WordKeepsLowThree(Value(b));
  }

  /** Any of the decode loops that the source repeats inline. */
  method ReadVarint(d: Bytes, start: nat, width: nat) returns (r: Scan)
    requires start <= |d|
    requires Word(width)
    ensures r == ScanVarint(d, start, 0, 0, width)
  {
    var i: nat, shift: nat, acc: nat := start, 0, 0;
    while true
      invariant start <= i <= |d|
      invariant ScanVarint(d, start, 0, 0, width) == ScanVarint(d, i, shift, acc, width)
      invariant acc < width && acc < Pow2(shift)
      decreases |d| - i
    {
      if shift >= 64 {
        return Overlong(acc);
      }
      if i >= |d| {
        return Truncated(acc);
      }
      var b := d[i];
      i := i + 1;
      OrIsAddition(acc, b % 128, shift, width);
      acc := Or(acc, b % 128 * Pow2(shift) % width);
      if b < 128 {
        return Done(acc, i);
      }
      shift := shift + 7;
    }
  }

  /** sovFrame. */
  method Sov(x: nat) returns (n: nat)
    ensures n == |EncodeVarint(x)|
    ensures n >= 1 && x < Pow2(7 * n)
    ensures forall m: nat :: 1 <= m < n ==> x >= Pow2(7 * m)
  {
    n := 0;
    var y := x;
    while true
      invariant |EncodeVarint(x)| == n + |EncodeVarint(y)|
      decreases y
    {
      n := n + 1;
      var z := y / 128;
      assert y >= 128 <==> z != 0;
      y := z;
      if y == 0 {
        break;
      }
    }
    forall m: nat | 1 <= m <= n
      ensures n <= m <==> x < Pow2(7 * m)
    {
      EncodeLength(x, m);
    }
  }

  /** encodeVarintFrame: it moves the offset by exactly the encoding and touches nothing else. */
  method PutVarint(a: array<Byte>, offset: nat, v: nat) returns (next: nat)
    requires offset + |EncodeVarint(v)| <= a.Length
    modifies a
    ensures next == offset + |EncodeVarint(v)|
    ensures a[..] == Splice(old(a[..]), offset, EncodeVarint(v))
  {
    hide Splice;
    var i, x := offset, v;
    ghost var before, done: Bytes := a[..], [];
    SpliceNothing(before, offset);
    while x >= 128
      invariant i == offset + |done|
      invariant EncodeVarint(v) == done + EncodeVarint(x)
      invariant a[..] == Splice(before, offset, done)
      decreases x
    {
      ghost var written := a[..];
      a[i] := x % 128 + 128;
      assert a[..] == written[i := x % 128 + 128];
      SpliceByte<Byte>(before, offset, done, x % 128 + 128);
      done := done + [x % 128 + 128];
      x := x / 128;
      i := i + 1;
    }
    ghost var written := a[..];
    a[i] := x;
    assert a[..] == written[i := x];
    SpliceByte<Byte>(before, offset, done, x);
    assert EncodeVarint(v) == done + [x];
    next := i + 1;
  }
}
