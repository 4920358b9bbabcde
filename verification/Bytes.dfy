/** Bytes, the little-endian words of every header, and the machine integers of the source. */
module Bytes {

  type Byte = x: int | 0 <= x < 256

  type Bytes = seq<Byte>

  const U32: nat := 0x1_0000_0000
  const U64: nat := 0x1_0000_0000_0000_0000
  const INT64_LIMIT: nat := 0x8000_0000_0000_0000

  datatype Option<+T> = None | Some(value: T)

  function Min(a: nat, b: nat): nat {
    if a <= b then a else b
  }

  function Pow2(n: nat): (p: nat)
    ensures p >= 1
  {
    if n == 0 then 1 else 2 * Pow2(n - 1)
  }

  lemma ScaledMonotone(a: nat, b: nat, c: nat)
    requires a <= b
    ensures a * c <= b * c
  {
  }

  /** A fresh Go byte slice. */
  function Zeros(n: nat): (b: Bytes)
    ensures |b| == n
  {
    seq(n, _ => 0)
  }

  /** Go's `int(u)` for a 64-bit unsigned `u`: the same bits, read as two's complement. */
  function ToInt64(u: nat): (r: int)
    requires u < U64
    ensures -(INT64_LIMIT as int) <= r < INT64_LIMIT && (u - r) % U64 == 0
  {
    if u < INT64_LIMIT then u else u - U64
  }

  /** A sum of two Go ints, wrapped around. */
  function AddInt64(a: nat, b: nat): int
    requires a < INT64_LIMIT && b < INT64_LIMIT
  {
    ToInt64(a + b)
  }

  /** Go's `int32(u)`. */
  function ToInt32(u: nat): (r: int)
    ensures -0x8000_0000 <= r < 0x8000_0000 && (u - r) % U32 == 0
  {
    var low := u % U32;
    if low < 0x8000_0000 then low else low - U32
  }

  function Le32(v: nat): (b: Bytes)
    requires v < U32
    ensures |b| == 4
  {
    [v % 0x100, v / 0x100 % 0x100, v / 0x1_0000 % 0x100, v / 0x100_0000]
  }

  function Uint32(b: Bytes): (v: nat)
    requires |b| == 4
    ensures v < U32
  {
    var b0: int, b1: int, b2: int, b3: int := b[0], b[1], b[2], b[3];
    b0 + 0x100 * b1 + 0x1_0000 * b2 + 0x100_0000 * b3
  }

  lemma Digits(v: nat)
    ensures v / 0x1_0000 == v / 0x100 / 0x100 && v / 0x100_0000 == v / 0x100 / 0x100 / 0x100
  {
  }

  lemma Digit(low: nat, high: nat)
    requires low < 0x100
    ensures (low + 0x100 * high) / 0x100 == high && (low + 0x100 * high) % 0x100 == low
  {
  }

  lemma UintOfLe(v: nat)
    requires v < U32
    ensures Uint32(Le32(v)) == v
  {
    Digits(v);
    var q1 := v / 0x100;
    var q2 := q1 / 0x100;
    var q3 := q2 / 0x100;
    assert q1 == q1 % 0x100 + 0x100 * q2 && q2 == q2 % 0x100 + 0x100 * q3;
    assert v == v % 0x100 + 0x100 * q1;
  }

  lemma LeOfUint(b: Bytes)
    requires |b| == 4
    ensures Le32(Uint32(b)) == b
  {
    var w, b1: int, b2: int, b3: int := Uint32(b), b[1], b[2], b[3];
    Digits(w);
    Digit(b[0], b1 + 0x100 * (b2 + 0x100 * b3));
    Digit(b1, b2 + 0x100 * b3);
    Digit(b2, b3);
    assert w == b[0] + 0x100 * (b1 + 0x100 * (b2 + 0x100 * b3));
  }

  /** The two directions of the header word are inverse, so a header determines its size and conversely. */
  lemma LittleEndianInverse(v: nat, b: Bytes)
    requires v < U32
    requires |b| == 4
    ensures Uint32(Le32(v)) == v
    ensures Le32(Uint32(b)) == b
  {
    UintOfLe(v);
    LeOfUint(b);
  }

  /** The first byte is the least significant one. */
  lemma LeastFirst()
    ensures Le32(0x0403_0201) == [1, 2, 3, 4] && Uint32([1, 2, 3, 4]) == 0x0403_0201
  {
  }

  function Concat<T>(xs: seq<seq<T>>): seq<T> {
    if xs == [] then [] else xs[0] + Concat(xs[1..])
  }

  lemma Associative<T>(a: seq<T>, b: seq<T>, c: seq<T>)
    ensures a + (b + c) == (a + b) + c
  {
  }

  lemma {:induction false} ConcatSnoc<T>(xs: seq<seq<T>>, x: seq<T>)
    ensures Concat(xs + [x]) == Concat(xs) + x
  {
    if xs == [] {
      assert xs + [x] == [x];
      assert Concat([x]) == x + Concat([]);
    } else {
      assert (xs + [x])[1..] == xs[1..] + [x];
      ConcatSnoc(xs[1..], x);
    }
  }

  lemma {:induction false} ConcatAppend<T>(xs: seq<seq<T>>, ys: seq<seq<T>>)
    ensures Concat(xs + ys) == Concat(xs) + Concat(ys)
  {
    if xs == [] {
      assert xs + ys == ys;
    } else {
      assert (xs + ys)[1..] == xs[1..] + ys;
      ConcatAppend(xs[1..], ys);
    }
  }

  /** What stands in `d` at `i`, followed by anything. */
  predicate At<T(==)>(d: seq<T>, i: nat, part: seq<T>) {
    i + |part| <= |d| && d[i..i + |part|] == part
  }

  lemma AtSplit<T>(d: seq<T>, i: nat, a: seq<T>, b: seq<T>)
    requires At(d, i, a + b)
    ensures At(d, i, a)
    ensures At(d, i + |a|, b)
  {
    var w := d[i..i + |a + b|];
    assert d[i..i + |a|] == w[..|a|] == a;
    assert d[i + |a|..i + |a| + |b|] == w[|a|..] == b;
  }

  lemma AtJoin<T>(d: seq<T>, i: nat, a: seq<T>, b: seq<T>)
    requires At(d, i, a)
    requires At(d, i + |a|, b)
    ensures At(d, i, a + b)
  {
    assert d[i..i + |a + b|] == d[i..i + |a|] + d[i + |a|..i + |a| + |b|];
  }

  /** `s` with `part` written over it from index `i` on. */
  function Splice<T>(s: seq<T>, i: nat, part: seq<T>): (r: seq<T>)
    requires i + |part| <= |s|
    ensures |r| == |s|
  {
    s[..i] + part + s[i + |part|..]
  }

  /** Writing one part after the other writes their concatenation. */
  lemma SpliceTwice<T>(s: seq<T>, i: nat, p: seq<T>, q: seq<T>)
    requires i + |p + q| <= |s|
    ensures Splice(Splice(s, i, p), i + |p|, q) == Splice(s, i, p + q)
  {
  }

  lemma SpliceByte<T>(s: seq<T>, i: nat, p: seq<T>, b: T)
    requires i + |p| < |s|
    ensures Splice(s, i, p)[i + |p| := b] == Splice(s, i, p + [b])
  {
  }

  lemma SpliceNothing<T>(s: seq<T>, i: nat)
    requires i <= |s|
    ensures Splice(s, i, []) == s
  {
  }

  lemma SpliceStart<T>(s: seq<T>, part: seq<T>)
    requires |part| <= |s|
    ensures Splice(s, 0, part) == part + s[|part|..]
    ensures part == [] ==> Splice(s, 0, part) == s
  {
  }
}
