/** Runs that mix both sending and both receiving interfaces of stream.go over one connection. */
module Exchange {
  import opened Bytes
  import opened Io
  import opened ChunkWire
  import opened Receiving
  import opened Streams
  import opened StreamReader

  /** A message by ReadFrom (one chunk a read of the source), or by Writer.Write calls and Close. */
  datatype Outgoing = ViaReadFrom(pieces: seq<Bytes>, end: IoError) | ViaWriter(writes: seq<Bytes>)

  /** A message by WriteTo, or by Reader.Read with `sizes(i) + 1` bytes of room in the i-th call. */
  datatype Incoming = ViaWriteTo | ViaReader(sizes: nat -> nat)

  function ChunksOf(s: Outgoing): seq<Bytes> {
    if s.ViaReadFrom? then s.pieces else s.writes
  }

  /** Non-empty pieces; ReadFrom's fit its buffer because its source obeys io.Reader. */
  predicate Sendable(s: Outgoing) {
    ValidChunks(ChunksOf(s), if s.ViaReadFrom? then BUF_SIZE else U32 - 1)
  }

  /** What a receiver needs of a message at `pos`: the limits of its own buffer and whole headers, or whole everything. */
  predicate Receivable(how: Incoming, window: nat -> nat, pos: nat, chunks: seq<Bytes>) {
    && WholeHeaders(window, pos, chunks)
    && (if how.ViaWriteTo? then ValidChunks(chunks, BUF_SIZE) else WholeBodies(window, pos, chunks))
  }

  function WireAll(messages: seq<seq<Bytes>>): Bytes {
    if messages == [] then [] else Wire(messages[0]) + WireAll(messages[1..])
  }

  predicate AllReceivable(hows: seq<Incoming>, window: nat -> nat, pos: nat, messages: seq<seq<Bytes>>)
    requires |hows| == |messages|
  {
    messages != [] ==>
      && Receivable(hows[0], window, pos, messages[0])
      && AllReceivable(hows[1..], window, pos + |Wire(messages[0])|, messages[1..])
  }

  lemma {:induction false} WireAllSnoc(messages: seq<seq<Bytes>>, m: seq<Bytes>)
    ensures WireAll(messages + [m]) == WireAll(messages) + Wire(m)
  {
    hide Wire;
    if messages == [] {
      assert messages + [m] == [m];
      assert WireAll([m]) == Wire(m) + WireAll([]);
    } else {
      assert (messages + [m])[1..] == messages[1..] + [m];
      WireAllSnoc(messages[1..], m);
    }
  }

  /** One message out, by either interface: the wire grows by exactly that message. */
  method Send(a: Stream, s: Outgoing)
    requires a.Valid() && !a.Refused() && a.tx.reliable
    requires Sendable(s)
    modifies a.tx`data, a.buf
    ensures a.Valid()
    ensures a.tx.data == old(a.tx.data) + Wire(ChunksOf(s))
  {
    hide Wire, Framed;
    match s
    case ViaReadFrom(pieces, end) =>
      var source := new Source(pieces, [], end);
      var n, err := a.ReadFrom(source);
      SentIsWire(pieces, end);
    case ViaWriter(writes) =>
      var w := new Writer(a);
      ghost var before := a.tx.data;
      var i := 0;
      while i < |writes|
        invariant i <= |writes|
        invariant a.Valid() && !a.Refused()
        invariant a.tx.data + Wire(writes[i..]) == before + Wire(writes)
      {
        ghost var sofar := a.tx.data;
        var n, err := w.Write(writes[i]);
        WireCons(writes[i..]);
        assert writes[i..][1..] == writes[i + 1..];
        Associative(sofar, Framed(writes[i]), Wire(writes[i + 1..]));
        i := i + 1;
      }
      var err := w.Close();
      assert writes[i..] == [];
  }

  /** Reader.Read to EOF with any non-zero sizes, then Close. */
  method Drain(r: Reader, sizes: nat -> nat, ghost chunks: seq<Bytes>) returns (m: Bytes)
    requires r.stream.Valid() && !r.stream.Refused()
    requires r.buf == [] && !r.eof
    requires OnLine(r.stream.rx.AsLine(), r.stream.rx.pos, chunks)
    modifies r, r.stream.rx`pos, r.stream.hdr
    ensures r.stream.Valid()
    ensures m == Concat(chunks)
    ensures r.stream.rx.pos == old(r.stream.rx.pos) + |Wire(chunks)|
    ensures r.buf == [] && !r.eof
  {
    hide OnLine, ReadSome, Wire, Holding, Concat;
    FreshHolding(r.stream.rx.AsLine(), r.stream.rx.pos, chunks);
    ghost var line, left, rest := r.stream.rx.AsLine(), Concat(chunks), chunks;
    ghost var end := r.stream.rx.pos + |Wire(chunks)|;
    m := [];
    assert m + left == left;
    var calls := 0;
    while true
      invariant r.stream.Valid() && !r.stream.Refused() && r.stream.rx.AsLine() == line
      invariant Holding(line, r.View(), rest, left, end)
      invariant m + left == Concat(chunks)
      decreases |left|
    {
      ghost var before := r.View();
      var p := new Byte[sizes(calls) + 1];
      rest := ReadIsExact(line, before, rest, left, end, p.Length);
      var n, err := r.Read(p);
      if err.Some? {
        break;
      }
      assert left == left[..n] + left[n..];
      Associative(m, p[..n], left[n..]);
      m := m + p[..n];
      left := left[n..];
      calls := calls + 1;
    }
    r.Close();
  }

  /**
   Reading to EOF on a connection that ends inside a message: the bytes of its whole chunks, and EOF, as
   for a complete message and even where the connection failed. Nothing stays on the line.
   */
  method DrainCut(r: Reader, sizes: nat -> nat, ghost chunks: seq<Bytes>, ghost part: Bytes) returns (m: Bytes)
    requires r.stream.Valid() && !r.stream.Refused()
    requires r.buf == [] && !r.eof
    requires r.stream.rx.data[r.stream.rx.pos..] == FramedAll(chunks) + part && Partial(part)
    requires ValidChunks(chunks, U32 - 1)
    requires WholeHeaders(r.stream.rx.window, r.stream.rx.pos, chunks)
    requires WholeBodies(r.stream.rx.window, r.stream.rx.pos, chunks)
    modifies r, r.stream.rx`pos, r.stream.hdr
    ensures r.stream.Valid()
    ensures m == Concat(chunks) && r.stream.rx.pos == |r.stream.rx.data|
    ensures r.buf == [] && !r.eof
  {
    hide ReadSome, FramedAll, HoldingCut, Concat, Partial, WholeHeaders, WholeBodies;
    FreshCut(r.stream.rx.AsLine(), r.stream.rx.pos, chunks, part);
    ghost var line, left, rest, after := r.stream.rx.AsLine(), Concat(chunks), chunks, part;
    m := [];
    assert m + left == left;
    var calls := 0;
    while true
      invariant r.stream.Valid() && !r.stream.Refused() && r.stream.rx.AsLine() == line
      invariant HoldingCut(line, r.View(), rest, left, after)
      invariant m + left == Concat(chunks)
      decreases |left|
    {
      ghost var before := r.View();
      var p := new Byte[sizes(calls) + 1];
      rest, after := ReadCutIsExact(line, before, rest, left, after, p.Length);
      var n, err := r.Read(p);
      if err.Some? {
        break;
      }
      assert left == left[..n] + left[n..];
      Associative(m, p[..n], left[n..]);
      m := m + p[..n];
      left := left[n..];
      calls := calls + 1;
    }
    assert m + [] == m;
    r.Close();
  }

  /** One message in, by either interface: it is returned whole and the wire stands right behind it. */
  method Receive(b: Stream, how: Incoming, ghost chunks: seq<Bytes>) returns (m: Bytes)
    requires b.Valid() && !b.Refused()
    requires ValidChunks(chunks, U32 - 1)
    requires At(b.rx.data, b.rx.pos, Wire(chunks))
    requires Receivable(how, b.rx.window, b.rx.pos, chunks)
    modifies b.rx`pos, b.buf, b.hdr
    ensures b.Valid()
    ensures m == Concat(chunks)
    ensures b.rx.pos == old(b.rx.pos) + |Wire(chunks)|
  {
    hide Wire;
    match how
    case ViaWriteTo =>
      PullMessage(b.rx.AsLine(), b.rx.pos, chunks);
      var sink := new Sink(true);
      var r, failed := b.WriteTo(sink);
      assert [] + Concat(chunks) == Concat(chunks);
      m := sink.got;
    case ViaReader(sizes) =>
      var r := new Reader(b);
      m := Drain(r, sizes, chunks);
  }

  /** WriteTo on any message whose headers arrive whole: it panics exactly on a chunk that exceeds the buffer. */
  method CopyMessage(b: Stream, w: Sink, ghost chunks: seq<Bytes>) returns (r: Copied)
    requires b.Valid() && !b.Refused() && w.reliable
    requires ValidChunks(chunks, U32 - 1)
    requires At(b.rx.data, b.rx.pos, Wire(chunks)) && WholeHeaders(b.rx.window, b.rx.pos, chunks)
    modifies b.rx`pos, b.buf, b.hdr, w
    ensures b.Valid()
    ensures r == Panicking <==> !ValidChunks(chunks, BUF_SIZE)
    ensures r != Panicking ==>
      && r == Copied(|Concat(chunks)|, None)
      && w.got == old(w.got) + Concat(chunks) && b.rx.pos == old(b.rx.pos) + |Wire(chunks)|
  {
    hide Wire, Pull, WholeHeaders, Concat;
    PanicsExactly(b.rx.AsLine(), b.rx.pos, chunks);
    PullMessageExactly(b.rx.AsLine(), b.rx.pos, chunks);
    ghost var failed;
    r, failed := b.WriteTo(w);
  }

  /**
   WriteTo on a connection that ends inside a message. It panics exactly if something exceeds the
   buffer, and never returns exactly if otherwise the connection failed with less than a header left.
   Else the destination has all whole chunks, and the error is that of the end if a header was there,
   and none if not.
   */
  method CopyCut(b: Stream, w: Sink, ghost chunks: seq<Bytes>, ghost part: Bytes) returns (r: Copied)
    requires b.Valid() && !b.Refused() && w.reliable
    requires ValidChunks(chunks, U32 - 1) && Partial(part)
    requires b.rx.data[b.rx.pos..] == FramedAll(chunks) + part && WholeHeaders(b.rx.window, b.rx.pos, chunks)
    modifies b.rx`pos, b.buf, b.hdr, w
    ensures b.Valid()
    ensures r == Panicking <==> !FitsBuffer(chunks, part)
    ensures r == Looping <==> FitsBuffer(chunks, part) && |part| < 4 && b.rx.end != EOF
    ensures r.Copied? ==> r == Copied(|Concat(chunks)|, if |part| >= 4 then Some(b.rx.end) else None)
    ensures FitsBuffer(chunks, part) ==> w.got == old(w.got) + Concat(chunks) && b.rx.pos == |b.rx.data|
  {
    hide FramedAll, Pull, WholeHeaders, Concat, FitsBuffer, Partial;
    PullCutMessage(b.rx.AsLine(), b.rx.pos, chunks, part);
    ghost var failed;
    r, failed := b.WriteTo(w);
  }

  /** `i` messages are sent and `j` received; in between they stand on the wire. */
  ghost predicate Between(all: seq<seq<Bytes>>, hows: seq<Incoming>, window: nat -> nat, base: Bytes,
                          data: Bytes, pos: nat, i: nat, j: nat)
  {
    && j <= i <= |all| == |hows|
    && pos <= |data| && data[pos..] == WireAll(all[j..i])
    && data == base + WireAll(all[..i])
    && AllReceivable(hows[j..], window, pos, all[j..])
  }

  lemma BetweenSend(all: seq<seq<Bytes>>, hows: seq<Incoming>, window: nat -> nat, base: Bytes,
                    data: Bytes, pos: nat, i: nat, j: nat)
    requires Between(all, hows, window, base, data, pos, i, j) && i < |all|
    ensures Between(all, hows, window, base, data + Wire(all[i]), pos, i + 1, j)
  {
    hide Wire, AllReceivable, WireAll;
    var m := Wire(all[i]);
    assert (data + m)[pos..] == data[pos..] + m;
    assert all[j..i + 1] == all[j..i] + [all[i]] && all[..i + 1] == all[..i] + [all[i]];
    WireAllSnoc(all[j..i], all[i]);
    WireAllSnoc(all[..i], all[i]);
    Associative(base, WireAll(all[..i]), m);
  }

  lemma BetweenReceive(all: seq<seq<Bytes>>, hows: seq<Incoming>, window: nat -> nat, base: Bytes,
                       data: Bytes, pos: nat, i: nat, j: nat)
    requires Between(all, hows, window, base, data, pos, i, j) && j < i
    ensures At(data, pos, Wire(all[j])) && Receivable(hows[j], window, pos, all[j])
    ensures Between(all, hows, window, base, data, pos + |Wire(all[j])|, i, j + 1)
  {
    hide Wire, Receivable;
    assert all[j..i][0] == all[j] && all[j..i][1..] == all[j + 1..i];
    assert all[j..][0] == all[j] && all[j..][1..] == all[j + 1..] && hows[j..][1..] == hows[j + 1..];
    Prefixed(data, pos, Wire(all[j]), WireAll(all[j + 1..i]));
  }

  lemma BetweenStart(all: seq<seq<Bytes>>, hows: seq<Incoming>, window: nat -> nat, base: Bytes)
    requires |hows| == |all| && AllReceivable(hows, window, |base|, all)
    ensures Between(all, hows, window, base, base, |base|, 0, 0)
  {
    hide Wire, Receivable, AllReceivable;
    assert all[0..] == all && hows[0..] == hows && all[0..0] == [] && all[..0] == [];
    assert base[|base|..] == [] && base + [] == base;
  }

  lemma BetweenEnd(all: seq<seq<Bytes>>, hows: seq<Incoming>, window: nat -> nat, base: Bytes, data: Bytes, pos: nat)
    requires Between(all, hows, window, base, data, pos, |all|, |all|)
    ensures pos == |data| && data == base + WireAll(all)
  {
    assert all[|all|..] == [] && all[..|all|] == all;
  }

  ghost function AllChunks(sends: seq<Outgoing>): (all: seq<seq<Bytes>>)
    ensures |all| == |sends| && forall k :: 0 <= k < |all| ==> all[k] == ChunksOf(sends[k])
  {
    seq(|sends|, k requires 0 <= k < |sends| => ChunksOf(sends[k]))
  }

  /**
   Any list of messages, each sent and each received by either interface, in any interleaving of
   sending and receiving (`ahead` says when the sender goes first): the receiver gets exactly that
   list, in order, and nothing is left on the wire.
   */
  method Run(a: Stream, b: Stream, sends: seq<Outgoing>, hows: seq<Incoming>, ahead: nat -> bool)
    returns (got: seq<Bytes>)
    requires a.Valid() && b.Valid() && a.tx == b.rx && a.rx != b.rx && a.tx != b.tx
    requires !a.Refused() && !b.Refused() && a.tx.reliable
    requires b.rx.pos == |b.rx.data|
    requires |sends| == |hows| && forall k :: 0 <= k < |sends| ==> Sendable(sends[k])
    requires AllReceivable(hows, b.rx.window, b.rx.pos, AllChunks(sends))
    modifies a.tx`data, a.tx`pos, a.buf, b.buf, b.hdr
    ensures |got| == |sends| && forall k :: 0 <= k < |sends| ==> got[k] == Concat(ChunksOf(sends[k]))
    ensures b.rx.pos == |b.rx.data|
    ensures b.rx.data == old(b.rx.data) + WireAll(AllChunks(sends))
  {
    hide Wire, WireAll, Receivable, AllReceivable, Between, AllChunks, Concat;
    ghost var all, base, window := AllChunks(sends), b.rx.data, b.rx.window;
    BetweenStart(all, hows, window, base);
    got := [];
    var i, j := 0, 0;
    while j < |sends|
      invariant j <= i <= |sends| && |got| == j
      invariant a.Valid() && b.Valid() && !a.Refused() && !b.Refused()
      invariant Between(all, hows, window, base, b.rx.data, b.rx.pos, i, j)
      invariant forall k :: 0 <= k < j ==> got[k] == Concat(all[k])
      decreases |sends| - i + |sends| - j
    {
      if i < |sends| && (i == j || ahead(i)) {
        BetweenSend(all, hows, window, base, b.rx.data, b.rx.pos, i, j);
        Send(a, sends[i]);
        i := i + 1;
      } else {
        BetweenReceive(all, hows, window, base, b.rx.data, b.rx.pos, i, j);
        SendableValid(sends[j]);
        var m := Receive(b, hows[j], all[j]);
        got := got + [m];
        j := j + 1;
      }
    }
    assert j <= i <= |sends| && i == j;
    BetweenEnd(all, hows, window, base, b.rx.data, b.rx.pos);
  }

  lemma SendableValid(s: Outgoing)
    requires Sendable(s)
    ensures ValidChunks(ChunksOf(s), U32 - 1)
  {
  }
}
