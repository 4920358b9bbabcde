/**
 What stream.go's receiving loops do with any input at all: the header read, and the sequence of
 chunks that WriteTo takes from a line before it stops.
 */
module Receiving {
  import opened Bytes
  import opened Io
  import opened ChunkWire

  /** readHeader: a size, or an error; `pos` is where the line stands afterwards. */
  datatype Header = Header(size: nat, err: Option<IoError>, pos: nat)

  function HeaderAt(line: Line, pos: nat): (h: Header)
    requires pos <= |line.data|
    ensures pos <= h.pos <= |line.data|
    ensures h.size < U32
    ensures h.err.None? <==> h.size > 0
    ensures pos < |line.data| ==> pos < h.pos
    ensures h.err.None? ==> h.pos == pos + 4
  {
    var r := ReadAt(line, pos, 4);
    if r.err.Some? then Header(0, r.err, pos)
    else if |r.bytes| != 4 then Header(0, Some(ShortBuffer), pos + |r.bytes|)
    else
      var size := Uint32(r.bytes);
      if size == 0 then Header(0, Some(EOF), pos + 4) else Header(size, None, pos + 4)
  }

  /**
   readHeader on any line: the connection's end if nothing is left, and nothing consumed; a short buffer
   if fewer than four bytes arrive, which are gone; EOF for the zero word; else the size.
   */
  lemma HeaderOutcome(line: Line, pos: nat)
    requires pos <= |line.data|
    ensures var k := Min(4, Min(line.window(pos) + 1, |line.data| - pos));
      && (pos == |line.data| ==> HeaderAt(line, pos) == Header(0, Some(line.end), pos))
      && (0 < k < 4 ==> HeaderAt(line, pos) == Header(0, Some(ShortBuffer), pos + k))
      && (k == 4 && line.data[pos..pos + 4] == [0, 0, 0, 0] ==> HeaderAt(line, pos) == Header(0, Some(EOF), pos + 4))
      && (k == 4 && line.data[pos..pos + 4] != [0, 0, 0, 0] ==>
            HeaderAt(line, pos) == Header(Uint32(line.data[pos..pos + 4]), None, pos + 4))
  {
    hide Uint32;
    var k := Min(4, Min(line.window(pos) + 1, |line.data| - pos));
    if k == 4 {
      ZeroWord(line.data[pos..pos + 4]);
    }
  }

  lemma ZeroWord(b: Bytes)
    requires |b| == 4
    ensures Uint32(b) == 0 <==> b == [0, 0, 0, 0]
  {
    LittleEndianInverse(0, b);
  }

  /**
   Why the loop stops: at the marker; because the connection ended where a header should start, which
   the loop cannot tell from the marker; in the middle of a body; on a chunk larger than the buffer, which
   panics; or never, because WriteTo ignores every header error but EOF and a failed line repeats it.
   */
  datatype Stop = Marker | LineEnd | Broken(err: IoError) | Oversize | Spins

  datatype Pulled = Pulled(chunks: seq<Bytes>, pos: nat, stop: Stop)

  function Pull(line: Line, pos: nat): (r: Pulled)
    requires pos <= |line.data|
    ensures pos <= r.pos <= |line.data|
    decreases |line.data| - pos
  {
    var h := HeaderAt(line, pos);
    if h.err == Some(EOF) then Pulled([], h.pos, if pos == |line.data| then LineEnd else Marker)
    else if pos == |line.data| then Pulled([], pos, Spins)
    else if h.size > BUF_SIZE then Pulled([], h.pos, Oversize)
    else if |line.data| - h.pos < h.size then Pulled([], |line.data|, Broken(line.end))
    else if h.size == 0 then Pull(line, h.pos)
    else
      var rest := Pull(line, h.pos + h.size);
      rest.(chunks := [line.data[h.pos..h.pos + h.size]] + rest.chunks)
  }

  lemma HeaderOfChunk(line: Line, pos: nat, size: nat)
    requires size < U32
    requires At(line.data, pos, Le32(size))
    requires line.window(pos) + 1 >= 4
    ensures HeaderAt(line, pos) == Header(size, if size == 0 then Some(EOF) else None, pos + 4)
  {
    LittleEndianInverse(size, Le32(size));
  }

  lemma PullChunk(line: Line, pos: nat, c: Bytes)
    requires 0 < |c| <= BUF_SIZE
    requires At(line.data, pos, Framed(c))
    requires line.window(pos) + 1 >= 4
    ensures var r := Pull(line, pos + 4 + |c|);
      Pull(line, pos) == r.(chunks := [c] + r.chunks)
  {
    hide Le32, HeaderAt;
    AtSplit(line.data, pos, Le32(|c| % U32), c);
    HeaderOfChunk(line, pos, |c|);
  }

  /** The loop takes exactly the chunks of a message whose headers arrive whole, however the bodies are cut. */
  lemma {:induction false} PullMessage(line: Line, pos: nat, chunks: seq<Bytes>)
    requires ValidChunks(chunks, BUF_SIZE)
    requires At(line.data, pos, Wire(chunks))
    requires WholeHeaders(line.window, pos, chunks)
    ensures Pull(line, pos) == Pulled(chunks, pos + |Wire(chunks)|, Marker)
    decreases |chunks|
  {
    hide Le32, Pull, Framed, Wire, HeaderAt;
    if chunks == [] {
      PullMarker(line, pos);
    } else {
      var c, rest := chunks[0], chunks[1..];
      WireCons(chunks);
      AtSplit(line.data, pos, Framed(c), Wire(rest));
      PullChunk(line, pos, c);
      PullMessage(line, pos + 4 + |c|, rest);
      assert [c] + rest == chunks;
    }
  }

  lemma PullMarker(line: Line, pos: nat)
    requires At(line.data, pos, Wire([]))
    requires line.window(pos) + 1 >= 4
    ensures |Wire([])| == 4
    ensures Pull(line, pos) == Pulled([], pos + 4, Marker)
  {
    assert Wire([]) == Le32(0);
    HeaderOfChunk(line, pos, 0);
  }

  /** A pull that ends at a marker has consumed at least the framing of what it yields. */
  lemma {:induction false} PullAccounts(line: Line, pos: nat)
    requires pos <= |line.data|
    requires Pull(line, pos).stop == Marker
    ensures Pull(line, pos).pos >= pos + |Wire(Pull(line, pos).chunks)|
    decreases |line.data| - pos
  {
    hide HeaderAt;
    var h, r := HeaderAt(line, pos), Pull(line, pos);
    if h.err == Some(EOF) {
      MarkerPosition(line, pos);
    } else if h.size == 0 {
      PullAccounts(line, h.pos);
    } else {
      var next := h.pos + h.size;
      PullAccounts(line, next);
      assert r.chunks[1..] == Pull(line, next).chunks;
      WireCons(r.chunks);
    }
  }

  lemma MarkerPosition(line: Line, pos: nat)
    requires pos < |line.data|
    requires HeaderAt(line, pos).err == Some(EOF)
    ensures HeaderAt(line, pos).pos == pos + |Wire([])|
  {
  }

  /**
   Exactly when: the loop takes a message off the line, and nothing else, if and only if each header
   arrives whole and each chunk fits the buffer.
   */
  lemma {:induction false} PullMessageExactly(line: Line, pos: nat, chunks: seq<Bytes>)
    requires ValidChunks(chunks, U32 - 1)
    requires At(line.data, pos, Wire(chunks))
    ensures Pull(line, pos) == Pulled(chunks, pos + |Wire(chunks)|, Marker)
      <==> WholeHeaders(line.window, pos, chunks) && ValidChunks(chunks, BUF_SIZE)
    decreases |chunks|
  {
    hide Pull, Framed, Wire, HeaderAt;
    if line.window(pos) + 1 < 4 {
      SplitHeaderFails(line, pos, chunks);
    } else if chunks == [] {
      PullMarker(line, pos);
    } else {
      var c, rest := chunks[0], chunks[1..];
      WireCons(chunks);
      AtSplit(line.data, pos, Framed(c), Wire(rest));
      ValidTail(chunks, BUF_SIZE);
      if |c| > BUF_SIZE {
        OversizeChunk(line, pos, c);
      } else {
        PullChunk(line, pos, c);
        PullMessageExactly(line, pos + 4 + |c|, rest);
        var r := Pull(line, pos + 4 + |c|);
        assert ([c] + r.chunks)[1..] == r.chunks;
      }
    }
  }

  lemma ValidTail(chunks: seq<Bytes>, limit: nat)
    requires chunks != []
    ensures ValidChunks(chunks, limit) <==> 0 < |chunks[0]| <= limit && ValidChunks(chunks[1..], limit)
  {
    assert forall k :: 0 < k < |chunks| ==> chunks[k] == chunks[1..][k - 1];
    assert forall k :: 0 <= k < |chunks| - 1 ==> chunks[1..][k] == chunks[k + 1];
  }

  /** A chunk that does not fit the buffer ends the loop in a panic: the buffer is sliced past its end. */
  lemma OversizeChunk(line: Line, pos: nat, c: Bytes)
    requires BUF_SIZE < |c| < U32
    requires At(line.data, pos, Framed(c))
    requires line.window(pos) + 1 >= 4
    ensures Pull(line, pos) == Pulled([], pos + 4, Oversize)
  {
    hide Le32, HeaderAt;
    AtSplit(line.data, pos, Le32(|c| % U32), c);
    HeaderOfChunk(line, pos, |c|);
  }

  /** Where headers arrive whole: the loop panics on a message if and only if one of its chunks exceeds the buffer. */
  lemma {:induction false} PanicsExactly(line: Line, pos: nat, chunks: seq<Bytes>)
    requires ValidChunks(chunks, U32 - 1)
    requires At(line.data, pos, Wire(chunks))
    requires WholeHeaders(line.window, pos, chunks)
    ensures Pull(line, pos).stop == Oversize <==> exists k :: 0 <= k < |chunks| && |chunks[k]| > BUF_SIZE
    decreases |chunks|
  {
    hide Pull, Framed, Wire, HeaderAt;
    if chunks == [] {
      PullMarker(line, pos);
    } else {
      var c, rest := chunks[0], chunks[1..];
      WireCons(chunks);
      AtSplit(line.data, pos, Framed(c), Wire(rest));
      if |c| > BUF_SIZE {
        OversizeChunk(line, pos, c);
      } else {
        PullChunk(line, pos, c);
        PanicsExactly(line, pos + 4 + |c|, rest);
        assert forall k :: 0 < k < |chunks| ==> chunks[k] == rest[k - 1];
        assert forall k :: 0 <= k < |rest| ==> rest[k] == chunks[k + 1];
      }
    }
  }

  /** One Writer.Write of 1025 bytes, then Close: well-formed on the wire, and WriteTo panics on it. */
  lemma LargeWritePanics(window: nat -> nat)
    requires forall p :: window(p) >= 3
    ensures Parse(Wire([Zeros(1025)])) == Some(Parsed([Zeros(1025)], []))
    ensures Pull(Line(Wire([Zeros(1025)]), window, EOF), 0) == Pulled([], 4, Oversize)
  {
    hide Wire, Framed, Parse, Pull;
    var c := Zeros(1025);
    ParseWire([c], []);
    assert Wire([c]) + [] == Wire([c]);
    WireCons([c]);
    assert Wire([c])[..|Framed(c)|] == Framed(c);
    OversizeChunk(Line(Wire([c]), window, EOF), 0, c);
  }

  lemma SplitHeaderFails(line: Line, pos: nat, chunks: seq<Bytes>)
    requires At(line.data, pos, Wire(chunks))
    requires line.window(pos) + 1 < 4
    ensures Pull(line, pos) != Pulled(chunks, pos + |Wire(chunks)|, Marker)
  {
    hide Wire;
    var h := HeaderAt(line, pos);
    assert |Wire(chunks)| >= 4 by {
      WireAtLeastMarker(chunks);
    }
    assert h.err == Some(ShortBuffer) && Pull(line, pos) == Pull(line, h.pos);
    if Pull(line, h.pos).stop == Marker {
      PullAccounts(line, h.pos);
    }
  }

  lemma WireAtLeastMarker(chunks: seq<Bytes>)
    ensures |Wire(chunks)| >= 4
  {
  }

  /**
   WriteTo's view of a line agrees with Parse: if a message stands on the line, with chunks that fit
   the buffer and headers that arrive whole, the loop yields its chunks and leaves exactly the rest.
   */
  lemma PullAgreesWithParse(line: Line, pos: nat)
    requires pos <= |line.data|
    requires Parse(line.data[pos..]).Some?
    requires ValidChunks(Parse(line.data[pos..]).value.chunks, BUF_SIZE)
    requires WholeHeaders(line.window, pos, Parse(line.data[pos..]).value.chunks)
    ensures var r, p := Pull(line, pos), Parse(line.data[pos..]).value;
      r.stop == Marker && r.chunks == p.chunks && line.data[r.pos..] == p.rest
  {
    var d, p := line.data[pos..], Parse(line.data[pos..]).value;
    ParseOnly(d);
    assert d[..|Wire(p.chunks)|] == Wire(p.chunks);
    PullMessage(line, pos, p.chunks);
    assert line.data[pos + |Wire(p.chunks)|..] == d[|Wire(p.chunks)|..] == p.rest;
  }

  /** What is left when a connection ends inside a message: less than a header, or a header and less than its body. */
  predicate Partial(part: Bytes) {
    |part| < 4 || |part| - 4 < Uint32(part[..4])
  }

  /** No chunk exceeds the buffer, and the header that is left, if there is one, announces none that does. */
  predicate FitsBuffer(chunks: seq<Bytes>, part: Bytes) {
    ValidChunks(chunks, BUF_SIZE) && (|part| < 4 || Uint32(part[..4]) <= BUF_SIZE)
  }

  /**
   A connection that ends inside a message. The loop panics exactly when something exceeds the buffer;
   otherwise it yields the whole chunks and uses the line up. It then ends without an error, as at a
   marker, exactly when less than a header is left and the end is EOF; it never ends exactly when less
   than a header is left and the connection failed; and it reports the end exactly when a header is left.
   */
  lemma {:induction false} PullCutMessage(line: Line, pos: nat, chunks: seq<Bytes>, part: Bytes)
    requires ValidChunks(chunks, U32 - 1)
    requires pos <= |line.data| && line.data[pos..] == FramedAll(chunks) + part
    requires Partial(part)
    requires WholeHeaders(line.window, pos, chunks)
    ensures FitsBuffer(chunks, part) ==> Pull(line, pos).chunks == chunks && Pull(line, pos).pos == |line.data|
    ensures Pull(line, pos).stop == Oversize <==> !FitsBuffer(chunks, part)
    ensures Pull(line, pos).stop == LineEnd <==> FitsBuffer(chunks, part) && |part| < 4 && line.end == EOF
    ensures Pull(line, pos).stop == Spins <==> FitsBuffer(chunks, part) && |part| < 4 && line.end != EOF
    ensures Pull(line, pos).stop == Broken(line.end) <==> FitsBuffer(chunks, part) && |part| >= 4
    decreases |chunks|
  {
    hide Framed, Pull, HeaderAt, Uint32;
    if chunks == [] {
      PullPartial(line, pos, part);
    } else {
      var c, rest := chunks[0], chunks[1..];
      Associative(Framed(c), FramedAll(rest), part);
      Prefixed(line.data, pos, Framed(c), FramedAll(rest) + part);
      ValidTail(chunks, BUF_SIZE);
      if |c| > BUF_SIZE {
        OversizeChunk(line, pos, c);
      } else {
        PullChunk(line, pos, c);
        PullCutMessage(line, pos + 4 + |c|, rest, part);
        assert [c] + rest == chunks;
      }
    }
  }

  /** A message of one byte, then half a header, then the end: no error, although the message is not complete. */
  lemma CutLooksComplete(window: nat -> nat)
    requires forall p :: window(p) >= 3
    ensures Parse(Framed([7]) + [0, 0]) == None
    ensures Pull(Line(Framed([7]) + [0, 0], window, EOF), 0) == Pulled([[7]], 7, LineEnd)
  {
    hide Parse, Pull;
    assert FramedAll([[7]]) == Framed([7]) + FramedAll([]) == Framed([7]);
    CutDoesNotParse([[7]], [0, 0]);
    PullCutMessage(Line(Framed([7]) + [0, 0], window, EOF), 0, [[7]], [0, 0]);
  }

  lemma PullPartial(line: Line, pos: nat, part: Bytes)
    requires pos <= |line.data| && line.data[pos..] == part
    requires Partial(part)
    requires line.window(pos) + 1 >= 4
    ensures Pull(line, pos) ==
      if |part| < 4 then Pulled([], |line.data|, if line.end == EOF then LineEnd else Spins)
      else if Uint32(part[..4]) > BUF_SIZE then Pulled([], pos + 4, Oversize)
      else Pulled([], |line.data|, Broken(line.end))
  {
    hide Uint32;
    if |part| >= 4 {
      assert line.data[pos..pos + 4] == part[..4];
    }
  }

  /**
   Every input either holds a whole message or is such a cut one, and not both: together with
   PullMessageExactly this covers all that a line can hold.
   */
  lemma {:induction false} MessageOrCut(b: Bytes) returns (chunks: seq<Bytes>, part: Bytes)
    ensures ValidChunks(chunks, U32 - 1)
    ensures Parse(b).None? ==> b == FramedAll(chunks) + part && Partial(part)
    ensures Parse(b).Some? ==> b == Wire(chunks) + part
    decreases |b|
  {
    hide Uint32, Framed, Wire;
    if Partial(b) {
      chunks, part := [], b;
    } else if Uint32(b[..4]) == 0 {
      ParseOnly(b);
      chunks, part := Parse(b).value.chunks, Parse(b).value.rest;
    } else {
      var size := Uint32(b[..4]);
      var c, tail := b[4..4 + size], b[4 + size..];
      assert b == Framed(c) + tail by {
        ChunkAhead(b);
      }
      ParseChunk(c, tail);
      var rest;
      rest, part := MessageOrCut(tail);
      chunks := [c] + rest;
      assert chunks[1..] == rest;
      WireCons(chunks);
      Associative(Framed(c), FramedAll(rest), part);
      Associative(Framed(c), Wire(rest), part);
    }
  }

  lemma ChunkAhead(b: Bytes)
    requires |b| >= 4 && 0 < Uint32(b[..4]) <= |b| - 4
    ensures var c := b[4..4 + Uint32(b[..4])]; b == Framed(c) + b[4 + |c|..]
  {
    hide Le32, Uint32;
    LittleEndianInverse(0, b[..4]);
  }

  lemma {:induction false} CutDoesNotParse(chunks: seq<Bytes>, part: Bytes)
    requires ValidChunks(chunks, U32 - 1) && Partial(part)
    ensures Parse(FramedAll(chunks) + part) == None
    decreases |chunks|
  {
    hide Uint32, Framed;
    if chunks == [] {
      assert FramedAll(chunks) + part == part;
    } else {
      hide Parse;
      Associative(Framed(chunks[0]), FramedAll(chunks[1..]), part);
      ParseChunk(chunks[0], FramedAll(chunks[1..]) + part);
      CutDoesNotParse(chunks[1..], part);
    }
  }

  lemma Prefixed(d: Bytes, pos: nat, a: Bytes, tail: Bytes)
    requires pos <= |d| && d[pos..] == a + tail
    ensures At(d, pos, a) && d[pos + |a|..] == tail
  {
    var w := d[pos..];
    assert d[pos..pos + |a|] == w[..|a|] && d[pos + |a|..] == w[|a|..];
  }

  /**
   A header cut in two is lost. Both parts count as errors that WriteTo ignores, and what follows is
   read as a header: here four payload bytes vanish and the loop still ends at a "marker".
   */
  lemma SplitHeaderLosesMessage()
    ensures
      var window: nat -> nat := p => if p == 0 then 1 else 3;
      && Parse(Wire([[0, 0, 7, 7]])) == Some(Parsed([[0, 0, 7, 7]], []))
      && Pull(Line(Wire([[0, 0, 7, 7]]), window, EOF), 0) == Pulled([], 6, Marker)
  {
    hide Wire, Parse;
    var window: nat -> nat := p => if p == 0 then 1 else 3;
    OneChunk([0, 0, 7, 7]);
    assert Wire([[0, 0, 7, 7]]) == [4, 0, 0, 0, 0, 0, 7, 7, 0, 0, 0, 0];
    var line := Line(Wire([[0, 0, 7, 7]]), window, EOF);
    assert HeaderAt(line, 0) == Header(0, Some(ShortBuffer), 2);
    assert line.data[2..6] == [0, 0, 0, 0];
  }
}
