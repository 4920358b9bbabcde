/**
 The chunk format of stream.go as a language: a message is any number of non-empty chunks, each
 behind its length as a little-endian word, ended by a zero word.
 */
module ChunkWire {
  import opened Bytes
  import opened Io

  /** A chunk behind its header. Go's uint32(len) cuts the length to 32 bits. */
  function Framed(chunk: Bytes): (b: Bytes)
    ensures |b| == 4 + |chunk|
  {
    Le32(|chunk| % U32) + chunk
  }

  function FramedAll(chunks: seq<Bytes>): Bytes {
    if chunks == [] then [] else Framed(chunks[0]) + FramedAll(chunks[1..])
  }

  /** A whole message. */
  function Wire(chunks: seq<Bytes>): Bytes {
    FramedAll(chunks) + Le32(0)
  }

  predicate ValidChunks(chunks: seq<Bytes>, limit: nat) {
    forall k :: 0 <= k < |chunks| ==> 0 < |chunks[k]| <= limit
  }

  datatype Parsed = Parsed(chunks: seq<Bytes>, rest: Bytes)

  /** "Take the message off the wire", defined on the bytes alone. */
  function Parse(b: Bytes): (r: Option<Parsed>)
    decreases |b|
  {
    if |b| < 4 then None
    else
      var size := Uint32(b[..4]);
      if size == 0 then Some(Parsed([], b[4..]))
      else if |b| - 4 < size then None
      else
        match Parse(b[4 + size..])
        case None => None
        case Some(p) => Some(Parsed([b[4..4 + size]] + p.chunks, p.rest))
  }

  lemma WireCons(chunks: seq<Bytes>)
    requires chunks != []
    ensures Wire(chunks) == Framed(chunks[0]) + Wire(chunks[1..])
  {
    Associative(Framed(chunks[0]), FramedAll(chunks[1..]), Le32(0));
  }

  lemma ParseEnd(rest: Bytes)
    ensures Parse(Wire([]) + rest) == Some(Parsed([], rest))
  {
  }

  function Push(chunk: Bytes, p: Option<Parsed>): Option<Parsed> {
    if p.None? then None else Some(Parsed([chunk] + p.value.chunks, p.value.rest))
  }

  lemma ParseChunk(c: Bytes, tail: Bytes)
    requires 0 < |c| < U32
    ensures Parse(Framed(c) + tail) == Push(c, Parse(tail))
  {
    hide Le32, Uint32;
    var b := Framed(c) + tail;
    LittleEndianInverse(|c|, b[..4]);
    assert b[..4] == Le32(|c|);
    assert b[4..4 + |c|] == c;
    assert b[4 + |c|..] == tail;
  }

  /** A well-formed message followed by anything parses to its chunks, and leaves the rest. */
  lemma {:induction false} ParseWire(chunks: seq<Bytes>, rest: Bytes)
    requires ValidChunks(chunks, U32 - 1)
    ensures Parse(Wire(chunks) + rest) == Some(Parsed(chunks, rest))
    decreases |chunks|
  {
    if chunks == [] {
      ParseEnd(rest);
    } else {
      hide Parse, Framed, Wire;
      WireCons(chunks);
      Associative(Framed(chunks[0]), Wire(chunks[1..]), rest);
      ParseChunk(chunks[0], Wire(chunks[1..]) + rest);
      ParseWire(chunks[1..], rest);
      assert [chunks[0]] + chunks[1..] == chunks;
    }
  }

  lemma OnlyEnd(b: Bytes)
    requires |b| >= 4 && Uint32(b[..4]) == 0
    ensures b == Wire([]) + b[4..]
  {
  }

  lemma OnlyChunk(b: Bytes) returns (c: Bytes)
    requires |b| >= 4 && Uint32(b[..4]) != 0
    requires Parse(b).Some?
    ensures 0 < |c| < U32 && 4 + |c| <= |b|
    ensures b == Framed(c) + b[4 + |c|..]
    ensures Parse(b) == Push(c, Parse(b[4 + |c|..]))
  {
    hide Le32, Uint32;
    LittleEndianInverse(0, b[..4]);
    var size := Uint32(b[..4]);
    c := b[4..4 + size];
    assert b == (b[..4] + c) + b[4 + size..];
  }

  lemma PushParts(c: Bytes, p: Option<Parsed>)
    requires p.Some?
    ensures Push(c, p).Some?
    ensures Push(c, p).value.chunks != [] && Push(c, p).value.chunks[0] == c
    ensures Push(c, p).value.chunks[1..] == p.value.chunks && Push(c, p).value.rest == p.value.rest
    ensures 0 < |c| < U32 && ValidChunks(p.value.chunks, U32 - 1) ==> ValidChunks(Push(c, p).value.chunks, U32 - 1)
  {
  }

  /** A message of one short chunk, byte by byte. */
  lemma OneChunk(c: Bytes)
    requires 0 < |c| < 256
    ensures Wire([c]) == [|c|, 0, 0, 0] + c + [0, 0, 0, 0]
    ensures Parse(Wire([c])) == Some(Parsed([c], []))
  {
    ShortHeader(|c|);
    hide Parse, Le32;
    WireCons([c]);
    assert Wire([]) == Le32(0);
    ParseWire([c], []);
    assert Wire([c]) + [] == Wire([c]);
  }

  lemma ShortHeader(n: nat)
    requires n < 256
    ensures Le32(n % U32) == [n, 0, 0, 0] && Le32(0) == [0, 0, 0, 0]
  {
  }

  /** Conversely only well-formed messages parse, and in one way: the format is self-delimiting. */
  lemma {:induction false} ParseOnly(b: Bytes)
    requires Parse(b).Some?
    ensures ValidChunks(Parse(b).value.chunks, U32 - 1)
    ensures b == Wire(Parse(b).value.chunks) + Parse(b).value.rest
    decreases |b|
  {
    if Uint32(b[..4]) == 0 {
      OnlyEnd(b);
    } else {
      var c := OnlyChunk(b);
      hide Framed, Wire, Uint32, ValidChunks, Parse;
      var tail := b[4 + |c|..];
      ParseOnly(tail);
      PushParts(c, Parse(tail));
      var p, q := Parse(b).value, Parse(tail).value;
      WireCons(p.chunks);
      Associative(Framed(c), Wire(q.chunks), q.rest);
    }
  }

  /** Two messages that start the same input are the same message. */
  lemma WireUnambiguous(xs: seq<Bytes>, xrest: Bytes, ys: seq<Bytes>, yrest: Bytes)
    requires ValidChunks(xs, U32 - 1) && ValidChunks(ys, U32 - 1)
    requires Wire(xs) + xrest == Wire(ys) + yrest
    ensures xs == ys && xrest == yrest
  {
    ParseWire(xs, xrest);
    ParseWire(ys, yrest);
  }

  /** Every header of the message, which starts at `pos`, arrives whole. */
  predicate WholeHeaders(window: nat -> nat, pos: nat, chunks: seq<Bytes>)
    decreases |chunks|
  {
    window(pos) + 1 >= 4 && (chunks != [] ==> WholeHeaders(window, pos + 4 + |chunks[0]|, chunks[1..]))
  }

  /** And so does every chunk body. */
  predicate WholeBodies(window: nat -> nat, pos: nat, chunks: seq<Bytes>)
    decreases |chunks|
  {
    chunks != [] ==>
      window(pos + 4) + 1 >= |chunks[0]| && WholeBodies(window, pos + 4 + |chunks[0]|, chunks[1..])
  }

  /**
   What ReadFrom writes for a source: one chunk a read, and the marker at the end. A read of nothing
   writes a zero header, which is a marker; bytes returned together with an error are dropped, and
   after an error other than EOF that came with bytes there is no marker.
   */
  function Sent(script: seq<Bytes>, last: Bytes, err: IoError): Bytes {
    if script == [] then (if err == EOF || last == [] then Le32(0) else [])
    else Framed(script[0]) + Sent(script[1..], last, err)
  }

  /** That is: every read in its own frame, and then the marker, except after a failure that came with bytes. */
  lemma {:induction false} SentExactly(script: seq<Bytes>, last: Bytes, err: IoError)
    ensures Sent(script, last, err) == FramedAll(script) + (if err == EOF || last == [] then Le32(0) else [])
    decreases |script|
  {
    hide Framed;
    if script == [] {
    } else {
      SentExactly(script[1..], last, err);
      Associative(Framed(script[0]), FramedAll(script[1..]), if err == EOF || last == [] then Le32(0) else []);
    }
  }

  /** How many payload bytes are among the first `sent` bytes of what ReadFrom writes. */
  function PayloadIn(script: seq<Bytes>, sent: nat): (n: nat)
    decreases |script|
  {
    if script == [] || sent <= 4 then 0
    else if sent <= 4 + |script[0]| then sent - 4
    else |script[0]| + PayloadIn(script[1..], sent - 4 - |script[0]|)
  }

  /** Those bytes end inside a chunk's header, or at either end of it. */
  predicate EndsAtHeader(script: seq<Bytes>, sent: nat)
    decreases |script|
  {
    script != [] &&
    (sent <= 4 || (sent >= 4 + |script[0]| && EndsAtHeader(script[1..], sent - 4 - |script[0]|)))
  }

  lemma {:induction false} PayloadAppend(done: seq<Bytes>, rest: seq<Bytes>, sent: nat)
    ensures PayloadIn(done + rest, |FramedAll(done)| + sent) == |Concat(done)| + PayloadIn(rest, sent)
    ensures EndsAtHeader(rest, sent) ==> EndsAtHeader(done + rest, |FramedAll(done)| + sent)
    decreases |done|
  {
    if done == [] {
      assert done + rest == rest;
    } else {
      assert (done + rest)[1..] == done[1..] + rest;
      PayloadAppend(done[1..], rest, sent);
    }
  }

  lemma MarkerCut(done: seq<Bytes>, script: seq<Bytes>, sent: nat)
    requires script == []
    ensures PayloadIn(done + script, |FramedAll(done)| + sent) == |Concat(done)|
  {
    PayloadAppend(done, script, sent);
  }

  lemma HeaderCut(done: seq<Bytes>, script: seq<Bytes>, sent: nat)
    requires script != [] && sent <= 4
    ensures EndsAtHeader(done + script, |FramedAll(done)| + sent)
  {
    PayloadAppend(done, script, sent);
  }

  lemma BodyCut(done: seq<Bytes>, script: seq<Bytes>, sent: nat)
    requires script != [] && sent <= |script[0]|
    ensures PayloadIn(done + script, |FramedAll(done)| + 4 + sent) == |Concat(done)| + sent
  {
    PayloadAppend(done, script, 4 + sent);
  }

  lemma {:induction false} OneMoreChunk(done: seq<Bytes>, c: Bytes)
    ensures |FramedAll(done + [c])| == |FramedAll(done)| + 4 + |c|
    ensures |Concat(done + [c])| == |Concat(done)| + |c|
  {
    hide Framed;
    ConcatSnoc(done, c);
    if done == [] {
      assert done + [c] == [c] && [c][1..] == [];
    } else {
      assert (done + [c])[1..] == done[1..] + [c];
      OneMoreChunk(done[1..], c);
    }
  }

  /** The wire holds exactly one message, and it is all that the source returned. */
  predicate Faithful(script: seq<Bytes>, last: Bytes, err: IoError) {
    match Parse(Sent(script, last, err))
    case None => false
    case Some(p) => Concat(p.chunks) == Concat(script) + last && p.rest == []
  }

  lemma {:induction false} SentIsWire(script: seq<Bytes>, err: IoError)
    ensures Sent(script, [], err) == Wire(script)
    decreases |script|
  {
    if script == [] {
    } else {
      SentIsWire(script[1..], err);
      WireCons(script);
    }
  }

  /**
   ReadFrom sends the source's bytes as one message if and only if no read returned nothing without
   an error and no bytes came together with the final error.
   */
  lemma {:induction false} ReadFromFaithful(script: seq<Bytes>, last: Bytes, err: IoError)
    requires forall k :: 0 <= k < |script| ==> |script[k]| < U32
    ensures Faithful(script, last, err) <==> (forall k :: 0 <= k < |script| ==> script[k] != []) && last == []
    decreases |script|
  {
    if script == [] {
      LastFaithful(last, err);
    } else if script[0] == [] {
      EmptyReadUnfaithful(script, last, err);
    } else {
      var c, tail := script[0], script[1..];
      hide Parse, Framed;
      ReadFromFaithful(tail, last, err);
      ParseChunk(c, Sent(tail, last, err));
      var q := Parse(Sent(tail, last, err));
      if q.Some? {
        PushParts(c, q);
        Associative(c, Concat(tail), last);
        Cancel(c, Concat(q.value.chunks), Concat(tail) + last);
      }
      assert forall k :: 0 < k < |script| ==> script[k] == tail[k - 1];
      assert forall k :: 0 <= k < |tail| ==> tail[k] == script[k + 1];
    }
  }

  lemma LastFaithful(last: Bytes, err: IoError)
    ensures Faithful([], last, err) <==> last == []
  {
  }

  lemma EmptyReadUnfaithful(script: seq<Bytes>, last: Bytes, err: IoError)
    requires script != [] && script[0] == []
    ensures !Faithful(script, last, err)
  {
    var tail := Sent(script[1..], last, err);
    ParseEnd(tail);
    assert Framed([]) == Wire([]);
  }

  lemma Cancel(a: Bytes, x: Bytes, y: Bytes)
    ensures a + x == a + y <==> x == y
  {
    assert (a + x)[|a|..] == x && (a + y)[|a|..] == y;
  }

  /** Of `all`, to be appended to `before`, only `rest` is still missing from `data`. */
  ghost predicate Owed(before: Bytes, all: Bytes, data: Bytes, rest: Bytes) {
    before <= data && data + rest == before + all
  }

  lemma OwedPart(before: Bytes, all: Bytes, data: Bytes, next: Bytes, rest: Bytes, now: Bytes)
    requires Owed(before, all, data, next + rest)
    requires data <= now <= data + next
    ensures before <= now <= before + all
    ensures now == data + next ==> Owed(before, all, now, rest)
  {
    Associative(data, next, rest);
  }

  lemma OwedLast(before: Bytes, all: Bytes, data: Bytes, next: Bytes, now: Bytes)
    requires Owed(before, all, data, next)
    requires data <= now <= data + next
    ensures before <= now <= before + all
    ensures now == data + next ==> now == before + all
  {
  }
}
