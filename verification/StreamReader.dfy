/** The buffering Reader of stream.go. */
module StreamReader {
  import opened Bytes
  import opened Io
  import opened ChunkWire
  import opened Receiving
  import opened Streams

  /** The reader as a value: where the line stands, the buffered bytes, and the EOF flag. */
  datatype State = State(pos: nat, buf: Bytes, eof: bool)

  datatype Body = Body(bytes: Bytes, n: nat, err: Option<IoError>, pos: nat)

  /**
   reader.read: every round reads to the start of `p` again, not to `p[n..]`, and asks for all of it,
   so only a body that arrives in one read is read right.
   */
  function BodyInto(line: Line, pos: nat, p: Bytes, n: nat): (r: Body)
    requires pos <= |line.data|
    ensures |r.bytes| == |p| && pos <= r.pos <= |line.data|
    decreases |line.data| - pos
  {
    match BodyRound(line, pos, p, n)
    case Ended(r) => r
    case Again(pos', p', n') => BodyInto(line, pos', p', n')
  }

  datatype Round = Ended(r: Body) | Again(pos: nat, p: Bytes, n: nat)

  function BodyRound(line: Line, pos: nat, p: Bytes, n: nat): (r: Round)
    requires pos <= |line.data|
    ensures r.Ended? ==> |r.r.bytes| == |p| && r.r.pos == pos
    ensures r.Again? ==> |r.p| == |p| && pos < r.pos <= |line.data|
  {
    if n >= |p| then Ended(Body(p, n, None, pos))
    else
      var r := ReadAt(line, pos, |p|);
      if r.err.Some? then Ended(Body(p, if r.err.value == EOF then n else 0, r.err, pos))
      else Again(pos + |r.bytes|, r.bytes + p[|r.bytes|..], n + |r.bytes|)
  }

  datatype Filled = Filled(st: State, err: Option<IoError>)

  function FillOnce(line: Line, st: State): (f: Filled)
    requires st.pos <= |line.data|
    ensures st.pos <= f.st.pos <= |line.data|
    ensures f.err.None? ==> f.st.pos > st.pos
  {
    var h := HeaderAt(line, st.pos);
    if h.err.Some? then Filled(State(h.pos, st.buf, st.eof || h.err.value == EOF), h.err)
    else
      var b := BodyInto(line, h.pos, Zeros(h.size), 0);
      if b.err.Some? then Filled(st.(pos := b.pos), b.err)
      else if b.n != h.size then Filled(st.(pos := b.pos), Some(ShortBuffer))
      else Filled(st.(pos := b.pos, buf := st.buf + b.bytes), None)
  }

  /** The loop of Read: fill until there is enough, the marker came, or something failed. */
  function FillTo(line: Line, st: State, want: nat): (r: State)
    requires st.pos <= |line.data|
    ensures r.pos <= |line.data|
    decreases |line.data| - st.pos
  {
    if |st.buf| >= want || st.eof then st
    else
      var f := FillOnce(line, st);
      if f.err.Some? then f.st else FillTo(line, f.st, want)
  }

  datatype Taken = Taken(bytes: Bytes, err: Option<IoError>, st: State)

  /** Handing out buffered bytes; an empty bytes.Buffer answers EOF unless nothing was asked for. */
  function HandOut(st: State, want: nat): Taken {
    var k := Min(want, |st.buf|);
    Taken(st.buf[..k],
          if k == 0 && (st.eof || want > 0) then Some(EOF) else None,
          st.(buf := st.buf[k..]))
  }

  function ReadSome(line: Line, st: State, want: nat): (r: Taken)
    requires st.pos <= |line.data|
    ensures r.st.pos <= |line.data|
  {
    HandOut(FillTo(line, st, want), want)
  }

  function Closed(st: State): State {
    State(st.pos, [], false)
  }

  /**
   The reader is inside a message whose undelivered bytes are `left` and which ends at `end`: some of
   them are buffered, the rest stands on the line as `chunks`, with whole headers and bodies.
   */
  ghost predicate Holding(line: Line, st: State, chunks: seq<Bytes>, left: Bytes, end: nat) {
    if st.eof then chunks == [] && left == st.buf && st.pos == end <= |line.data|
    else
      && OnLine(line, st.pos, chunks)
      && left == st.buf + Concat(chunks)
      && end == st.pos + |Wire(chunks)|
  }

  ghost predicate OnLine(line: Line, pos: nat, chunks: seq<Bytes>) {
    && At(line.data, pos, Wire(chunks))
    && ValidChunks(chunks, U32 - 1)
    && WholeHeaders(line.window, pos, chunks)
    && WholeBodies(line.window, pos, chunks)
  }

  lemma WholeBody(line: Line, pos: nat, c: Bytes)
    requires c != [] && At(line.data, pos, c)
    requires line.window(pos) + 1 >= |c|
    ensures BodyInto(line, pos, Zeros(|c|), 0) == Body(c, |c|, None, pos + |c|)
  {
    var r := ReadAt(line, pos, |c|);
    assert r.bytes == c;
    assert c + Zeros(|c|)[|c|..] == c;
  }

  lemma OnLineTail(line: Line, pos: nat, chunks: seq<Bytes>)
    requires OnLine(line, pos, chunks) && chunks != []
    ensures HeaderAt(line, pos) == Header(|chunks[0]|, None, pos + 4)
    ensures At(line.data, pos + 4, chunks[0]) && line.window(pos + 4) + 1 >= |chunks[0]| > 0
    ensures OnLine(line, pos + 4 + |chunks[0]|, chunks[1..])
    ensures |Wire(chunks)| == 4 + |chunks[0]| + |Wire(chunks[1..])|
  {
    hide Le32, HeaderAt, Wire;
    var c, rest := chunks[0], chunks[1..];
    WireCons(chunks);
    AtSplit(line.data, pos, Framed(c), Wire(rest));
    AtSplit(line.data, pos, Le32(|c| % U32), c);
    HeaderOfChunk(line, pos, |c|);
  }

  lemma FillChunk(line: Line, st: State, chunks: seq<Bytes>, left: Bytes, end: nat)
    requires !st.eof && chunks != [] && Holding(line, st, chunks, left, end)
    ensures FillOnce(line, st) == Filled(State(st.pos + 4 + |chunks[0]|, st.buf + chunks[0], false), None)
    ensures Holding(line, FillOnce(line, st).st, chunks[1..], left, end)
  {
    hide HeaderAt, BodyInto, OnLine, Wire;
    OnLineTail(line, st.pos, chunks);
    WholeBody(line, st.pos + 4, chunks[0]);
    Associative(st.buf, chunks[0], Concat(chunks[1..]));
  }

  lemma FillMarker(line: Line, st: State, left: Bytes, end: nat)
    requires !st.eof && Holding(line, st, [], left, end)
    ensures FillOnce(line, st) == Filled(State(st.pos + 4, st.buf, true), Some(EOF))
    ensures Holding(line, FillOnce(line, st).st, [], left, end)
  {
    assert Wire([]) == Le32(0);
    HeaderOfChunk(line, st.pos, 0);
  }

  /** Filling keeps the message: it only moves its bytes from the line into the buffer. */
  lemma {:induction false} FillKeeps(line: Line, st: State, chunks: seq<Bytes>, left: Bytes, end: nat, want: nat)
    returns (rest: seq<Bytes>)
    requires Holding(line, st, chunks, left, end) && st.pos <= |line.data|
    ensures Holding(line, FillTo(line, st, want), rest, left, end)
    ensures FillTo(line, st, want).eof || |FillTo(line, st, want).buf| >= want
    decreases |chunks|
  {
    hide FillOnce, Holding;
    if |st.buf| >= want || st.eof {
      rest := chunks;
    } else if chunks == [] {
      FillMarker(line, st, left, end);
      rest := [];
    } else {
      FillChunk(line, st, chunks, left, end);
      rest := FillKeeps(line, FillOnce(line, st).st, chunks[1..], left, end, want);
    }
  }

  lemma HandOutKeeps(line: Line, st: State, chunks: seq<Bytes>, left: Bytes, end: nat, want: nat)
    requires Holding(line, st, chunks, left, end)
    requires st.eof || |st.buf| >= want
    requires want > 0
    ensures var r, k := HandOut(st, want), Min(want, |left|);
      && r.bytes == left[..k]
      && r.err == (if left == [] then Some(EOF) else None)
      && Holding(line, r.st, chunks, left[k..], end)
  {
  }

  /**
   Read, for any non-empty destination: it returns exactly as many bytes of the current message as fit,
   in order, and EOF exactly when the message is used up; then the marker is consumed, the buffer is
   empty and the line stands right behind the message.
   */
  lemma ReadIsExact(line: Line, st: State, chunks: seq<Bytes>, left: Bytes, end: nat, want: nat)
    returns (rest: seq<Bytes>)
    requires Holding(line, st, chunks, left, end) && st.pos <= |line.data|
    requires want > 0
    ensures var r, k := ReadSome(line, st, want), Min(want, |left|);
      && r.bytes == left[..k]
      && (r.err == Some(EOF) <==> left == [])
      && (r.err == None <==> left != [])
      && Holding(line, r.st, rest, left[k..], end)
      && (r.err == Some(EOF) ==> r.st == State(end, [], true))
  {
    hide Holding, FillTo, HandOut;
    rest := FillKeeps(line, st, chunks, left, end, want);
    var st' := FillTo(line, st, want);
    HandOutKeeps(line, st', rest, left, end, want);
    EofIsEnd(line, st', rest, left, end, want);
  }

  lemma EofIsEnd(line: Line, st: State, chunks: seq<Bytes>, left: Bytes, end: nat, want: nat)
    requires Holding(line, st, chunks, left, end)
    requires want > 0 && (st.eof || |st.buf| >= want)
    ensures left == [] ==> HandOut(st, want).st == State(end, [], true)
  {
  }

  /** A new reader at the start of a message holds all of it. */
  lemma FreshHolding(line: Line, pos: nat, chunks: seq<Bytes>)
    requires OnLine(line, pos, chunks)
    ensures Holding(line, State(pos, [], false), chunks, Concat(chunks), pos + |Wire(chunks)|)
  {
    assert [] + Concat(chunks) == Concat(chunks);
  }

  /** Close after EOF loses nothing: the reader then stands at the start of whatever message follows. */
  lemma CloseAfterEof(line: Line, st: State, end: nat, next: seq<Bytes>)
    requires st == State(end, [], true) && end <= |line.data|
    requires OnLine(line, end, next)
    ensures Holding(line, Closed(st), next, Concat(next), end + |Wire(next)|)
  {
    FreshHolding(line, end, next);
  }

  /** Close before EOF drops what is buffered, and the next Read goes on inside the same message. */
  lemma CloseBeforeEof(line: Line, st: State, chunks: seq<Bytes>, left: Bytes, end: nat)
    requires Holding(line, st, chunks, left, end) && !st.eof
    ensures Holding(line, Closed(st), chunks, left[|st.buf|..], end)
  {
    assert left[|st.buf|..] == Concat(chunks) == [] + Concat(chunks);
  }

  /** A body read without an error has consumed what it counted, each round anew. */
  lemma {:induction false} BodyCounts(line: Line, pos: nat, p: Bytes, n: nat)
    requires pos <= |line.data|
    ensures var r := BodyInto(line, pos, p, n); r.err.None? ==> r.n >= |p| && r.pos - pos == r.n - n
    decreases |line.data| - pos
  {
    hide BodyInto;
    BodyUnfold(line, pos, p, n);
    var r := ReadAt(line, pos, |p|);
    if n >= |p| || r.err.Some? {
    } else {
      BodyCounts(line, pos + |r.bytes|, r.bytes + p[|r.bytes|..], n + |r.bytes|);
    }
  }

  /**
   Whatever the line, a fill that fails leaves the buffer alone and sets the EOF flag only if the header
   read as EOF; one that succeeds adds a body of the announced size, has consumed exactly that much, and
   sets no flag.
   */
  lemma FillIsClean(line: Line, st: State)
    requires st.pos <= |line.data|
    ensures var f, h := FillOnce(line, st), HeaderAt(line, st.pos);
      && (f.err.Some? ==> f.st.buf == st.buf && (f.st.eof <==> st.eof || h.err == Some(EOF)))
      && (f.err.None? ==> h.err.None? && |f.st.buf| == |st.buf| + h.size && st.buf <= f.st.buf && f.st.eof == st.eof)
      && (f.err.None? ==> f.st.pos == h.pos + h.size)
      && (h.err.Some? ==> f.err == h.err && f.st.pos == h.pos)
  {
    hide HeaderAt, BodyInto;
    var h := HeaderAt(line, st.pos);
    if h.err.None? {
      BodyCounts(line, h.pos, Zeros(h.size), 0);
    }
  }

  /** Read with no room hands out nothing, keeps the buffer, and answers EOF only by the flag. */
  lemma ReadNothing(line: Line, st: State)
    requires st.pos <= |line.data|
    ensures ReadSome(line, st, 0) == Taken([], if st.eof then Some(EOF) else None, st)
  {
    assert st.buf[0..] == st.buf;
  }

  /** A body that the connection ends in: its error, on every schedule, and the count is that of what was there. */
  lemma {:induction false} BodyCut(line: Line, pos: nat, p: Bytes, n: nat)
    requires pos <= |line.data| && n + |line.data| - pos < |p|
    ensures var r := BodyInto(line, pos, p, n);
      && r.err == Some(line.end) && r.pos == |line.data|
      && r.n == if line.end == EOF then n + |line.data| - pos else 0
    decreases |line.data| - pos
  {
    hide BodyInto;
    BodyUnfold(line, pos, p, n);
    var r := ReadAt(line, pos, |p|);
    if r.err.Some? {
    } else {
      BodyCut(line, pos + |r.bytes|, r.bytes + p[|r.bytes|..], n + |r.bytes|);
    }
  }

  /**
   The reader is inside a message that the connection ends in, after the whole `chunks` and a `part` of
   what should follow; `left` are the bytes of whole chunks that it has not delivered.
   */
  ghost predicate HoldingCut(line: Line, st: State, chunks: seq<Bytes>, left: Bytes, part: Bytes) {
    && st.pos <= |line.data| && line.data[st.pos..] == FramedAll(chunks) + part && Partial(part)
    && left == st.buf + Concat(chunks)
    && ValidChunks(chunks, U32 - 1) && WholeBodies(line.window, st.pos, chunks)
    && (chunks != [] || part != [] ==> WholeHeaders(line.window, st.pos, chunks))
    && (st.eof ==> chunks == [] && part == [])
  }

  lemma FillCutChunk(line: Line, st: State, chunks: seq<Bytes>, left: Bytes, part: Bytes)
    requires chunks != [] && HoldingCut(line, st, chunks, left, part)
    ensures FillOnce(line, st) == Filled(State(st.pos + 4 + |chunks[0]|, st.buf + chunks[0], false), None)
    ensures HoldingCut(line, FillOnce(line, st).st, chunks[1..], left, part)
  {
    hide HeaderAt, BodyInto, Framed, Partial;
    var c, rest := chunks[0], chunks[1..];
    Associative(Framed(c), FramedAll(rest), part);
    Prefixed(line.data, st.pos, Framed(c), FramedAll(rest) + part);
    ChunkThere(line, st.pos, c);
    WholeBody(line, st.pos + 4, c);
    Associative(st.buf, c, Concat(rest));
  }

  lemma ChunkThere(line: Line, pos: nat, c: Bytes)
    requires 0 < |c| < U32 && At(line.data, pos, Framed(c)) && line.window(pos) + 1 >= 4
    ensures HeaderAt(line, pos) == Header(|c|, None, pos + 4) && At(line.data, pos + 4, c)
  {
    hide Le32, HeaderAt;
    AtSplit(line.data, pos, Le32(|c| % U32), c);
    HeaderOfChunk(line, pos, |c|);
  }

  /** What is left of a cut message makes the fill fail and is gone. */
  lemma FillCutPart(line: Line, st: State, left: Bytes, part: Bytes)
    requires HoldingCut(line, st, [], left, part)
    ensures var f := FillOnce(line, st);
      && f.err.Some? && f.st == State(|line.data|, st.buf, st.eof || (part == [] && line.end == EOF))
      && HoldingCut(line, f.st.(eof := false), [], left, [])
  {
    hide HeaderAt, BodyInto, Uint32;
    HeaderOutcome(line, st.pos);
    assert FramedAll([]) + part == part;
    if |part| >= 4 {
      assert line.data[st.pos..st.pos + 4] == part[..4];
      ZeroWord(part[..4]);
      BodyCut(line, st.pos + 4, Zeros(Uint32(part[..4])), 0);
    }
  }

  /** Filling from a cut message, until there is enough or it is used up. */
  lemma {:induction false} FillCut(line: Line, st: State, chunks: seq<Bytes>, left: Bytes, part: Bytes, want: nat)
    returns (rest: seq<Bytes>, after: Bytes)
    requires HoldingCut(line, st, chunks, left, part)
    ensures HoldingCut(line, FillTo(line, st, want), rest, left, after)
    ensures after == part || after == []
    ensures FillTo(line, st, want).eof <==> st.eof || (|left| < want && part == [] && line.end == EOF)
    ensures FillTo(line, st, want).buf == left || |FillTo(line, st, want).buf| >= want
    ensures |left| < want ==> FillTo(line, st, want).pos == |line.data|
    decreases |chunks|
  {
    hide FillOnce, HoldingCut;
    rest, after := chunks, part;
    CutBounds(line, st, chunks, left, part);
    if |st.buf| >= want || st.eof {
    } else if chunks == [] {
      FillCutPart(line, st, left, part);
      after := [];
      AtEndCut(line, FillOnce(line, st).st, left, part);
    } else {
      FillCutChunk(line, st, chunks, left, part);
      rest, after := FillCut(line, FillOnce(line, st).st, chunks[1..], left, part, want);
    }
  }

  lemma CutBounds(line: Line, st: State, chunks: seq<Bytes>, left: Bytes, part: Bytes)
    requires HoldingCut(line, st, chunks, left, part)
    ensures st.pos <= |line.data| && |st.buf| <= |left|
    ensures st.eof || chunks == [] ==> st.buf == left
    ensures st.eof ==> part == [] && st.pos == |line.data|
  {
    assert chunks == [] ==> left == st.buf + [];
    assert st.eof ==> line.data[st.pos..] == [] + part;
  }

  lemma AtEndCut(line: Line, st: State, left: Bytes, part: Bytes)
    requires HoldingCut(line, st.(eof := false), [], left, [])
    ensures HoldingCut(line, st, [], left, [])
  {
  }

  /**
   Read on a connection that ends inside a message, for any non-empty destination: it returns exactly as
   many of the whole chunks' bytes as fit, in order, never a byte of the rest, and EOF exactly when none
   is left, whether the connection ended or failed. The EOF flag is set exactly by a Read that asks for
   more than that where not even a part of a header is left, at EOF.
   */
  lemma ReadCutIsExact(line: Line, st: State, chunks: seq<Bytes>, left: Bytes, part: Bytes, want: nat)
    returns (rest: seq<Bytes>, after: Bytes)
    requires HoldingCut(line, st, chunks, left, part) && want > 0
    ensures st.pos <= |line.data|
    ensures var r, k := ReadSome(line, st, want), Min(want, |left|);
      && r.bytes == left[..k]
      && r.err == (if left == [] then Some(EOF) else None)
      && HoldingCut(line, r.st, rest, left[k..], after)
      && (r.st.eof <==> st.eof || (|left| < want && part == [] && line.end == EOF))
      && (|left| < want ==> r.st.pos == |line.data|)
    ensures after == part || after == []
  {
    hide HoldingCut, FillTo, HandOut;
    CutBounds(line, st, chunks, left, part);
    rest, after := FillCut(line, st, chunks, left, part, want);
    HandOutCut(line, FillTo(line, st, want), rest, left, after, want);
  }

  lemma HandOutCut(line: Line, st: State, chunks: seq<Bytes>, left: Bytes, part: Bytes, want: nat)
    requires HoldingCut(line, st, chunks, left, part) && want > 0
    requires st.buf == left || |st.buf| >= want
    ensures var r, k := HandOut(st, want), Min(want, |left|);
      && r.bytes == left[..k]
      && r.err == (if left == [] then Some(EOF) else None)
      && r.st.eof == st.eof && r.st.pos == st.pos && HoldingCut(line, r.st, chunks, left[k..], part)
  {
    var k := Min(want, |st.buf|);
    assert k == Min(want, |left|) && left[..k] == st.buf[..k];
    assert left[k..] == st.buf[k..] + Concat(chunks);
  }

  /** A new reader at the start of such a message has all its whole chunks ahead. */
  lemma FreshCut(line: Line, pos: nat, chunks: seq<Bytes>, part: Bytes)
    requires pos <= |line.data| && line.data[pos..] == FramedAll(chunks) + part && Partial(part)
    requires ValidChunks(chunks, U32 - 1)
    requires WholeHeaders(line.window, pos, chunks) && WholeBodies(line.window, pos, chunks)
    ensures HoldingCut(line, State(pos, [], false), chunks, Concat(chunks), part)
  {
    assert [] + Concat(chunks) == Concat(chunks);
  }

  /** On this schedule the Reader gets every body of `size` bytes at `pos` right, whatever the bytes are. */
  ghost predicate GetsEveryBody(window: nat -> nat, pos: nat, size: nat) {
    forall pre: Bytes, c: Bytes, rest: Bytes ::
      |pre| == pos && |c| == size ==>
        BodyInto(Line(pre + c + rest, window, EOF), pos, Zeros(size), 0) == Body(c, size, None, pos + size)
  }

  /** Exactly when: the bodies the Reader gets right are those that arrive in one read. */
  lemma WholeBodiesExactly(window: nat -> nat, pos: nat, size: nat)
    requires size > 0
    ensures GetsEveryBody(window, pos, size) <==> window(pos) + 1 >= size
  {
    hide BodyInto;
    if window(pos) + 1 >= size {
      forall pre: Bytes, c: Bytes, rest: Bytes | |pre| == pos && |c| == size
        ensures BodyInto(Line(pre + c + rest, window, EOF), pos, Zeros(size), 0) == Body(c, size, None, pos + size)
      {
        var line := Line(pre + c + rest, window, EOF);
        assert line.data[pos..pos + size] == c;
        WholeBody(line, pos, c);
      }
    } else {
      var c := [1] + Zeros(size - 1);
      var line := Line(Zeros(pos) + c + [], window, EOF);
      var r := ReadAt(line, pos, size);
      assert r.bytes == [1] + Zeros(|r.bytes| - 1);
      BodyUnfold(line, pos, Zeros(size), 0);
      ZeroesOverwrite(line, pos + |r.bytes|, r.bytes + Zeros(size)[|r.bytes|..], |r.bytes|);
      assert c[0] == 1;
    }
  }

  /** Every later round writes the start of the buffer again. */
  lemma {:induction false} ZeroesOverwrite(line: Line, pos: nat, p: Bytes, n: nat)
    requires pos <= |line.data| && forall j :: pos <= j < |line.data| ==> line.data[j] == 0
    requires 0 < n && p != [] && (n >= |p| ==> p[0] == 0)
    ensures var r := BodyInto(line, pos, p, n); r.err == None ==> r.bytes[0] == 0
    decreases |line.data| - pos
  {
    hide BodyInto;
    BodyUnfold(line, pos, p, n);
    var r := ReadAt(line, pos, |p|);
    if n < |p| && r.err.None? {
      ZeroesOverwrite(line, pos + |r.bytes|, r.bytes + p[|r.bytes|..], n + |r.bytes|);
    }
  }

  /** A body cut in two comes out wrong without an error: its second part overwrites the first. */
  lemma SplitBodyCorrupts()
    ensures var window: nat -> nat := p => if p < 4 then 3 else 0;
      && OnWire([1, 2])
      && FillOnce(Line(Wire([[1, 2]]), window, EOF), State(0, [], false)) == Filled(State(6, [2, 0], false), None)
  {
    var window: nat -> nat := p => if p < 4 then 3 else 0;
    hide Wire, BodyInto, Parse;
    OneChunk([1, 2]);
    assert Wire([[1, 2]]) == [2, 0, 0, 0, 1, 2, 0, 0, 0, 0];
    var line := Line(Wire([[1, 2]]), window, EOF);
    assert line.data[0..4] == [2, 0, 0, 0];
    assert HeaderAt(line, 0) == Header(2, None, 4);
    SplitBody(line);
  }

  lemma SplitBody(line: Line)
    requires line.data == [2, 0, 0, 0, 1, 2, 0, 0, 0, 0]
    requires line.window(4) == 0 && line.window(5) == 0
    ensures BodyInto(line, 4, Zeros(2), 0) == Body([2, 0], 2, None, 6)
  {
    hide BodyInto;
    assert ReadAt(line, 4, 2).bytes == line.data[4..5] == [1];
    assert ReadAt(line, 5, 2).bytes == line.data[5..6] == [2];
    BodyUnfold(line, 4, Zeros(2), 0);
    assert [1] + Zeros(2)[1..] == [1, 0];
    BodyUnfold(line, 5, [1, 0], 1);
    assert [2] + [1, 0][1..] == [2, 0];
    BodyUnfold(line, 6, [2, 0], 2);
  }

  ghost predicate OnWire(c: Bytes) {
    Parse(Wire([c])) == Some(Parsed([c], []))
  }

  lemma BodyUnfold(line: Line, pos: nat, p: Bytes, n: nat)
    requires pos <= |line.data|
    ensures BodyInto(line, pos, p, n) ==
      match BodyRound(line, pos, p, n)
      case Ended(r) => r
      case Again(pos', p', n') => BodyInto(line, pos', p', n')
  {
  }

  class Reader {
    const stream: Stream
    var buf: Bytes
    var eof: bool

    constructor (stream: Stream)
      ensures this.stream == stream && buf == [] && !eof
    {
      this.stream, buf, eof := stream, [], false;
    }

    ghost function View(): State
      reads this, stream.rx
    {
      State(stream.rx.pos, buf, eof)
    }

    /** read */
    method ReadBody(p: array<Byte>) returns (n: nat, err: Option<IoError>)
      requires stream.Valid()
      modifies stream.rx`pos, p
      ensures stream.Valid()
      ensures BodyInto(stream.rx.AsLine(), old(stream.rx.pos), old(p[..]), 0) == Body(p[..], n, err, stream.rx.pos)
    {
      hide BodyInto, ReadAt, Splice;
      ghost var line, start, blank := stream.rx.AsLine(), stream.rx.pos, p[..];
      n, err := 0, None;
      while n < p.Length
        invariant stream.Valid() && stream.rx.AsLine() == line
        invariant BodyInto(line, start, blank, 0) == BodyInto(line, stream.rx.pos, p[..], n)
        invariant err == None
        decreases |line.data| - stream.rx.pos
      {
        ghost var here, content := stream.rx.pos, p[..];
        BodyUnfold(line, here, content, n);
        var rn, re := stream.rx.Read(p, 0, p.Length);
        SpliceStart(content, ReadAt(line, here, p.Length).bytes);
        if re.Some? {
          if re.value != EOF {
            return 0, re;
          }
          err := re;
          return;
        }
        n := n + rn;
      }
      BodyUnfold(line, stream.rx.pos, p[..], n);
    }

    /** fill */
    method Fill() returns (err: Option<IoError>)
      requires stream.Valid()
      modifies this, stream.rx`pos, stream.hdr
      ensures stream.Valid()
      ensures FillOnce(stream.rx.AsLine(), old(View())) == Filled(View(), err)
    {
      var off, erh := stream.ReadHeader();
      if erh.Some? {
        if erh.value == EOF {
          eof := true;
        }
        return erh;
      }
      var b := new Byte[off](_ => 0);
      assert b[..] == Zeros(off);
      var n;
      n, err := ReadBody(b);
      if err.Some? {
        return;
      }
      if n != off {
        return Some(ShortBuffer);
      }
      buf := buf + b[..];
    }

    method Read(p: array<Byte>) returns (n: nat, err: Option<IoError>)
      requires stream.Valid()
      requires p != stream.hdr
      modifies this, stream.rx`pos, stream.hdr, p
      ensures stream.Valid()
      ensures stream.Refused() ==> n == 0 && err == Some(StreamClosed) && View() == old(View())
      ensures !stream.Refused() ==>
        n <= p.Length && ReadSome(stream.rx.AsLine(), old(View()), p.Length) == Taken(p[..n], err, View())
    {
      hide FillOnce;
      if stream.Refused() {
        return 0, Some(StreamClosed);
      }
      ghost var line, start := stream.rx.AsLine(), View();
      while |buf| < p.Length && !eof
        invariant stream.Valid() && stream.rx.AsLine() == line
        invariant FillTo(line, start, p.Length) == FillTo(line, View(), p.Length)
        decreases |line.data| - stream.rx.pos
      {
        var fer := Fill();
        if fer.Some? {
          break;
        }
      }
      n := Min(p.Length, |buf|);
      forall j | 0 <= j < n {
        p[j] := buf[j];
      }
      assert p[..n] == buf[..n];
      err := if n == 0 && p.Length > 0 then Some(EOF) else None;
      buf := buf[n..];
      if n == 0 && eof {
        err := Some(EOF);
      }
    }

    method Close()
      modifies this
      ensures View() == Closed(old(View()))
    {
      buf, eof := [], false;
    }
  }
}
