/** stream.go: the stream's own transfer methods and its Writer. */
module Streams {
  import opened Bytes
  import opened Io
  import opened ChunkWire
  import opened Receiving

  /** How WriteTo ends: it returns, or panics on an oversized chunk, or loops forever on a failed line. */
  datatype Copied = Copied(n: nat, err: Option<IoError>) | Panicking | Looping

  /**
   What a failing destination has taken of the chunks, `got`, and the error for it: the destination's
   own if it failed after a whole chunk, and a short write if it took less.
   */
  ghost predicate BrokeOff(chunks: seq<Bytes>, got: Bytes, err: Option<IoError>) {
    exists k: nat, j: nat :: BrokeOffAt(chunks, got, err, k, j)
  }

  ghost predicate BrokeOffAt(chunks: seq<Bytes>, got: Bytes, err: Option<IoError>, k: nat, j: nat) {
    && k < |chunks| && j <= |chunks[k]|
    && got == Concat(chunks[..k]) + chunks[k][..j]
    && err == Some(if j < |chunks[k]| then ShortWrite else SINK_FAILURE)
  }

  class Stream {
    const rx: Conn
    const tx: Conn
    const buf: array<Byte>
    const hdr: array<Byte>
    var closed: bool
    var sessionClosed: bool

    constructor (rx: Conn, tx: Conn)
      requires rx != tx && rx.Valid() && tx.Valid()
      ensures Valid() && fresh(buf) && fresh(hdr)
      ensures this.rx == rx && this.tx == tx && !Refused()
    {
      this.rx, this.tx := rx, tx;
      buf, hdr := new Byte[BUF_SIZE](_ => 0), new Byte[4](_ => 0);
      closed, sessionClosed := false, false;
    }

    ghost predicate Valid()
      reads this, rx, tx
    {
      && rx != tx && rx.Valid() && tx.Valid()
      && buf.Length == BUF_SIZE && hdr.Length == 4 && buf != hdr
    }

    /** Transfers are refused once both the stream and its session are closed. */
    predicate Refused()
      reads this
    {
      closed && sessionClosed
    }

    method ReadHeader() returns (size: nat, err: Option<IoError>)
      requires Valid()
      modifies rx`pos, hdr
      ensures Valid()
      ensures HeaderAt(rx.AsLine(), old(rx.pos)) == Header(size, err, rx.pos)
    {
      var n, e := rx.Read(hdr, 0, 4);
      if e.Some? {
        return 0, e;
      }
      if n != 4 {
        return 0, Some(ShortBuffer);
      }
      assert hdr[..] == ReadAt(rx.AsLine(), old(rx.pos), 4).bytes;
      var bs := Uint32(hdr[..]);
      if bs == 0 {
        return 0, Some(EOF);
      }
      return bs, None;
    }

    /** read: a chunk body of `offset` bytes into the buffer, in as many reads as it takes. */
    method ReadBody(offset: nat) returns (n: nat, err: Option<IoError>)
      requires Valid()
      requires offset <= BUF_SIZE
      modifies rx`pos, buf
      ensures Valid()
      ensures var left := |rx.data| - old(rx.pos);
        if offset <= left then
          && n == offset && err == None
          && rx.pos == old(rx.pos) + offset
          && buf[..offset] == rx.data[old(rx.pos)..rx.pos]
        else
          && rx.pos == |rx.data| && err == Some(rx.end)
          && n == if rx.end == EOF then left else 0
    {
      ghost var start := rx.pos;
      n, err := 0, None;
      while n < offset
        invariant Valid()
        invariant n <= offset
        invariant rx.pos == start + n && rx.pos <= |rx.data|
        invariant buf[..n] == rx.data[start..rx.pos]
        invariant err == None
        decreases offset - n
      {
        ghost var before := buf[..];
        var rn, re := rx.Read(buf, n, offset);
        assert buf[..n + rn] == before[..n] + buf[..][n..n + rn];
        n := n + rn;
        if re.Some? {
          if re.value != EOF {
            return 0, re;
          }
          err := re;
          break;
        }
      }
    }

    /** The inner loop of WriteTo, which hands one chunk to the sink. */
    static method Deliver(w: Sink, p: Bytes) returns (wt: nat, err: Option<IoError>)
      requires p != []
      modifies w
      ensures wt <= |p| && w.got == old(w.got) + p[..wt]
      ensures wt < |p| ==> err.Some?
      ensures err.Some? ==> err == Some(SINK_FAILURE)
      ensures w.reliable ==> err.None?
    {
      wt, err := 0, None;
      while wt < |p|
        invariant wt <= |p| && w.got == old(w.got) + p[..wt]
        invariant wt == 0 || wt == |p|
        invariant err == None
        decreases |p| - wt
      {
        var nw, ew := w.Write(p);
        wt := wt + nw;
        if ew.Some? {
          err := ew;
          break;
        }
      }
    }

    /**
     WriteTo, on any line and any sink. With a sink that fails nowhere, the sink receives all chunks
     the line yields and the line stands where Pull leaves it. After a sink error the count is exactly
     what the sink accepted, and that is a prefix of the line's chunks.
     */
    method WriteTo(w: Sink) returns (r: Copied, ghost failed: bool)
      requires Valid()
      modifies rx`pos, buf, hdr, w
      ensures Valid()
      ensures Refused() ==> r == Copied(0, Some(StreamClosed)) && rx.pos == old(rx.pos) && w.got == old(w.got)
      ensures !Refused() && !failed ==>
        var p := Pull(rx.AsLine(), old(rx.pos));
        && rx.pos == p.pos && w.got == old(w.got) + Concat(p.chunks)
        && (p.stop == Marker || p.stop == LineEnd ==> r == Copied(|Concat(p.chunks)|, None))
        && (p.stop.Broken? ==> r == Copied(|Concat(p.chunks)|, Some(p.stop.err)))
        && (p.stop == Oversize ==> r == Panicking)
        && (p.stop == Spins ==> r == Looping)
      ensures !Refused() && failed ==>
        && r.Copied? && old(w.got) <= w.got && r.n == |w.got| - |old(w.got)|
        && BrokeOff(Pull(rx.AsLine(), old(rx.pos)).chunks, w.got[|old(w.got)|..], r.err)
      ensures w.reliable ==> !failed
    {
      hide HeaderAt, After, Concat;
      failed := false;
      ghost var line, start, before, done: seq<Bytes> := rx.AsLine(), rx.pos, w.got, [];
      if Refused() {
        return Copied(0, Some(StreamClosed)), false;
      }
      var n := 0;
      AfterStart(Pull(line, start));
      while true
        invariant Valid() && !Refused() && rx.AsLine() == line
        invariant Pull(line, start) == After(done, Pull(line, rx.pos))
        invariant w.got == before + Concat(done) && n == |Concat(done)|
        decreases |rx.data| - rx.pos
      {
        var here := rx.pos;
        var size, erh := ReadHeader();
        if erh == Some(EOF) {
          AfterNothing(done, Pull(line, here));
          return Copied(n, None), false;
        }
        if erh.Some? && here == |rx.data| {
          // The source ignores this error, and the next round would repeat it.
          AfterNothing(done, Pull(line, here));
          return Looping, false;
        }
        if size > BUF_SIZE {
          AfterNothing(done, Pull(line, here));
          return Panicking, false;
        }
        ghost var body := rx.pos;
        var rn, re := ReadBody(size);
        if re.Some? {
          AfterNothing(done, Pull(line, here));
          return Copied(n, re), false;
        }
        if rn > 0 {
          var p := buf[..size];
          assert p == line.data[body..body + size];
          var wt, err := Deliver(w, p);
          ConcatSnoc(done, p);
          AfterChunk(done, p, Pull(line, rx.pos));
          if rn != wt {
            err := Some(ShortWrite);
          }
          n := n + wt;
          if err.Some? {
            assert w.got == (before + Concat(done)) + p[..wt];
            BreaksOff(before, done, p, wt, Pull(line, rx.pos), err);
            return Copied(n, err), true;
          }
          assert p[..wt] == p;
          Associative(before, Concat(done), p);
          done := done + [p];
        }
      }
    }

    method WriteHeader(size: nat) returns (err: Option<IoError>)
      requires Valid()
      modifies tx`data
      ensures Valid()
      ensures old(tx.data) <= tx.data <= old(tx.data) + Le32(size % U32)
      ensures err.None? ==> tx.data == old(tx.data) + Le32(size % U32)
      ensures err.Some? ==> err == Some(CONN_FAILURE)
      ensures tx.reliable ==> err.None?
    {
      var n;
      n, err := tx.Write(Le32(size % U32));
      assert err.None? ==> Le32(size % U32)[..n] == Le32(size % U32);
    }

    /**
     ReadFrom, on any source. Without an error everything that Sent describes is on the wire; an error
     (always one of the connection: errors of the source are dropped) leaves a prefix of it. The count
     is then the payload in that prefix, unless a header failed, after which it is zero.
     */
    method ReadFrom(r: Source) returns (n: nat, err: Option<IoError>)
      requires Valid()
      requires r.Fits(BUF_SIZE)
      modifies tx`data, buf, r
      ensures Valid() && r.Fits(BUF_SIZE)
      ensures Refused() ==> n == 0 && err == Some(StreamClosed) && tx.data == old(tx.data)
      ensures old(tx.data) <= tx.data <= old(tx.data) + Sent(old(r.script), r.last, r.err)
      ensures err.None? ==>
        && tx.data == old(tx.data) + Sent(old(r.script), r.last, r.err)
        && n == |Concat(old(r.script))| && r.script == []
      ensures err.Some? && !Refused() ==> err == Some(CONN_FAILURE)
      ensures err.Some? && !Refused() ==>
        var sent := |tx.data| - |old(tx.data)|;
        n == PayloadIn(old(r.script), sent) || (n == 0 && EndsAtHeader(old(r.script), sent))
      ensures tx.reliable && !Refused() ==> err.None?
    {
      hide Sent, Le32, Concat, Splice, FramedAll, Framed, PayloadIn, EndsAtHeader, Owed;
      n, err := 0, None;
      if Refused() {
        return 0, Some(StreamClosed);
      }
      ghost var before, all, done: seq<Bytes> := tx.data, Sent(r.script, r.last, r.err), [];
      NothingSent(before, all);
      while true
        invariant Valid() && !Refused() && r.Fits(BUF_SIZE)
        invariant Owed(before, all, tx.data, Sent(r.script, r.last, r.err))
        invariant done + r.script == old(r.script)
        invariant |tx.data| == |before| + |FramedAll(done)| && n == |Concat(done)|
        invariant err == None
        decreases |r.script|, 1
      {
        ghost var script, here := r.script, tx.data;
        SentUnfold(script, r.last, r.err);
        var nr, er := r.Read(buf);
        if er.Some? {
          if er.value == EOF || nr == 0 {
            err := WriteHeader(0);
          }
          OwedLast(before, all, here, Sent(script, r.last, r.err), tx.data);
          MarkerCut(done, script, |tx.data| - |here|);
          assert done + script == done;
          break;
        }
        var p := buf[..nr];
        var whErr, nw, ew := SendChunk(p);
        OwedPart(before, all, here, Framed(p), Sent(r.script, r.last, r.err), tx.data);
        if whErr.Some? {
          HeaderCut(done, script, |tx.data| - |here|);
          return 0, whErr;
        }
        n := n + nw;
        if ew.Some? {
          BodyCut(done, script, nw);
          err := ew;
          break;
        }
        OneMoreChunk(done, p);
        done := done + [p];
      }
    }

    /** A round of ReadFrom that has read `p`: the header and, if there is one, the body. */
    method SendChunk(p: Bytes) returns (whErr: Option<IoError>, nw: nat, ew: Option<IoError>)
      requires Valid()
      modifies tx`data
      ensures Valid()
      ensures old(tx.data) <= tx.data <= old(tx.data) + Framed(p)
      ensures whErr.None? && ew.None? ==> tx.data == old(tx.data) + Framed(p) && nw == |p|
      ensures whErr.Some? ==> |tx.data| <= |old(tx.data)| + 4
      ensures whErr.None? ==> |tx.data| == |old(tx.data)| + 4 + nw
      ensures (whErr.Some? ==> whErr == Some(CONN_FAILURE)) && (ew.Some? ==> ew == Some(CONN_FAILURE))
      ensures tx.reliable ==> whErr.None? && ew.None?
    {
      hide Le32;
      nw, ew := 0, None;
      ghost var before := tx.data;
      whErr := WriteHeader(|p|);
      Associative(before, Le32(|p| % U32), p);
      if whErr.Some? {
        return;
      }
      if |p| > 0 {
        nw, ew := tx.Write(p);
        if ew.None? && nw != |p| {
          ew := Some(ShortWrite);
        }
      }
    }

    /** Close: the flag only; the session's bookkeeping is StreamCounter's subject. */
    method Close()
      modifies `closed
      ensures closed
    {
      closed := true;
    }
  }

  /** The Writer of a stream: each Write is one chunk, Close writes the marker. */
  class Writer {
    const stream: Stream

    constructor (stream: Stream)
      ensures this.stream == stream
    {
      this.stream := stream;
    }

    method Write(p: Bytes) returns (n: nat, err: Option<IoError>)
      requires stream.Valid()
      modifies stream.tx`data
      ensures stream.Valid()
      ensures stream.Refused() ==> n == 0 && err == Some(StreamClosed) && stream.tx.data == old(stream.tx.data)
      ensures old(stream.tx.data) <= stream.tx.data <= old(stream.tx.data) + Framed(p)
      ensures err.None? ==> n == |p| && stream.tx.data == old(stream.tx.data) + Framed(p)
      ensures !stream.Refused() ==>
        var sent := |stream.tx.data| - |old(stream.tx.data)|; n == if sent <= 4 then 0 else sent - 4
      ensures err.Some? && !stream.Refused() ==> err == Some(CONN_FAILURE)
      ensures stream.tx.reliable && !stream.Refused() ==> err.None?
    {
      if stream.Refused() {
        return 0, Some(StreamClosed);
      }
      ghost var before := stream.tx.data;
      var whErr := stream.WriteHeader(|p|);
      if whErr.Some? {
        return 0, whErr;
      }
      n, err := stream.tx.Write(p);
      assert before + Le32(|p| % U32) + p == before + Framed(p);
    }

    method Close() returns (err: Option<IoError>)
      requires stream.Valid()
      modifies stream.tx`data
      ensures stream.Valid()
      ensures old(stream.tx.data) <= stream.tx.data <= old(stream.tx.data) + Wire([])
      ensures err.None? ==> stream.tx.data == old(stream.tx.data) + Wire([])
      ensures err.Some? ==> err == Some(CONN_FAILURE)
      ensures stream.tx.reliable ==> err.None?
    {
      assert Wire([]) == Le32(0);
      err := stream.WriteHeader(0);
    }
  }

  /** A pull whose first chunks are already delivered. */
  ghost function After(done: seq<Bytes>, rest: Pulled): Pulled {
    rest.(chunks := done + rest.chunks)
  }

  lemma AfterStart(rest: Pulled)
    ensures After([], rest) == rest && Concat<Byte>([]) == []
  {
    assert [] + rest.chunks == rest.chunks;
  }

  lemma AfterNothing(done: seq<Bytes>, rest: Pulled)
    requires rest.chunks == []
    ensures After(done, rest) == rest.(chunks := done)
  {
  }

  lemma AfterChunk(done: seq<Bytes>, p: Bytes, rest: Pulled)
    ensures After(done, rest.(chunks := [p] + rest.chunks)) == After(done + [p], rest)
  {
    Associative(done, [p], rest.chunks);
  }

  lemma BreaksOff(before: Bytes, done: seq<Bytes>, p: Bytes, k: nat, rest: Pulled, err: Option<IoError>)
    requires k <= |p| && err == Some(if k < |p| then ShortWrite else SINK_FAILURE)
    ensures BrokeOff(After(done + [p], rest).chunks, ((before + Concat(done)) + p[..k])[|before|..], err)
    ensures before <= (before + Concat(done)) + p[..k]
  {
    var chunks := After(done + [p], rest).chunks;
    assert chunks[..|done|] == done && chunks[|done|] == p;
    Associative(before, Concat(done), p[..k]);
    assert BrokeOffAt(chunks, Concat(done) + p[..k], err, |done|, k);
  }

  lemma NothingSent(before: Bytes, all: Bytes)
    ensures FramedAll([]) == [] && Concat<Byte>([]) == []
    ensures Owed(before, all, before, all)
  {
  }

  lemma SentUnfold(script: seq<Bytes>, last: Bytes, err: IoError)
    ensures script != [] ==> Sent(script, last, err) == Framed(script[0]) + Sent(script[1..], last, err)
    ensures Sent([], last, err) == if err == EOF || last == [] then Le32(0) else []
  {
  }
}
