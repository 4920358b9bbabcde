/** The hub's pipe, and why a hub between two streams is invisible to them. */
module HubPipe {
  import opened Bytes
  import opened Io
  import opened ChunkWire
  import opened Receiving
  import opened Streams

  /**
   pipe: copies what the source still holds, in order, under any chunking. Without an error of its own
   it has copied everything, and the source's end was EOF; after an error of the destination what
   was accepted is a prefix. A connection's Write reports an error whenever it takes less than it was
   given, so the source's short-write branch (stream.go:380-383) is dead and is not written here.
   */
  method Pipe(src: Conn, dst: Conn) returns (err: Option<IoError>, ghost failed: bool)
    requires src != dst && src.Valid() && dst.Valid()
    modifies src`pos, dst`data
    ensures src.Valid() && dst.Valid()
    ensures old(dst.data) <= dst.data <= old(dst.data) + src.data[old(src.pos)..]
    ensures !failed ==>
      && dst.data == old(dst.data) + src.data[old(src.pos)..] && src.pos == |src.data|
      && err == (if src.end == EOF then None else Some(src.end))
    ensures failed ==> err.Some?
    ensures dst.reliable ==> !failed
  {
    hide Splice, ReadAt;
    err, failed := None, false;
    ghost var line, start, before := src.AsLine(), src.pos, dst.data;
    var b := new Byte[BUF_SIZE](_ => 0);
    CopiedNothing(before, line.data, start);
    while true
      invariant src.Valid() && dst.Valid() && src.AsLine() == line && start <= src.pos
      invariant dst.data == before + line.data[start..src.pos]
      invariant err == None && !failed
      decreases |src.data| - src.pos
    {
      ghost var here, was := src.pos, b[..];
      ghost var got := ReadAt(line, here, BUF_SIZE).bytes;
      var rn, er := src.Read(b, 0, BUF_SIZE);
      if er.Some? {
        if er.value != EOF {
          err := er;
        }
        break;
      }
      SpliceStart(was, got);
      var wn, ew := dst.Write(b[..rn]);
      CopiedMore(before, line.data, start, here, got, wn);
      if ew.Some? {
        err, failed := ew, true;
        break;
      }
    }
  }

  lemma CopiedNothing(before: Bytes, d: Bytes, start: nat)
    requires start <= |d|
    ensures before + d[start..start] == before
    ensures before <= before + d[start..]
  {
  }

  lemma CopiedMore(before: Bytes, d: Bytes, start: nat, here: nat, got: Bytes, k: nat)
    requires start <= here && At(d, here, got) && k <= |got|
    ensures before <= before + d[start..here] + got[..k] <= before + d[start..]
    ensures k == |got| ==> before + d[start..here] + got[..k] == before + d[start..here + |got|]
  {
  }

  /**
   ReadFrom at one end, the hub's pipe in the middle, WriteTo at the other end: whatever the
   fragmentation before the hub, the message arrives as on a direct connection, as long as headers
   reach the last reader whole.
   */
  method Relay(a: Stream, b: Stream, source: Source, sink: Sink) returns (r: Copied)
    requires a.Valid() && b.Valid() && a.tx != b.rx && a.rx != b.rx && a.tx != b.tx
    requires !a.Refused() && !b.Refused() && a.tx.reliable && b.rx.reliable && sink.reliable
    requires a.tx.end == EOF && a.tx.pos == |a.tx.data| && b.rx.pos == |b.rx.data|
    requires source.Fits(BUF_SIZE) && Faithful(source.script, source.last, source.err)
    requires WholeHeaders(b.rx.window, b.rx.pos, source.script)
    modifies a.tx`data, a.tx`pos, b.rx`data, b.rx`pos, a.buf, b.buf, b.hdr, source, sink
    ensures sink.got == old(sink.got) + Concat(old(source.script))
    ensures r == Copied(|Concat(old(source.script))|, None)
    ensures b.rx.pos == |b.rx.data| && b.rx.data == old(b.rx.data) + Wire(old(source.script))
    ensures a.tx.pos == |a.tx.data|
  {
    hide Wire, Faithful, Sent, Framed;
    ghost var chunks, sent, received := source.script, a.tx.data, b.rx.data;
    FaithfulChunks(source.script, source.last, source.err);
    var n, err := a.ReadFrom(source);
    SentIsWire(chunks, source.err);
    assert a.tx.data[|sent|..] == Wire(chunks);
    var e, failed := Pipe(a.tx, b.rx);
    assert b.rx.data == received + Wire(chunks);
    assert At(b.rx.data, |received|, Wire(chunks));
    PullMessage(b.rx.AsLine(), |received|, chunks);
    ghost var sinkFailed;
    r, sinkFailed := b.WriteTo(sink);
  }

  lemma FaithfulChunks(script: seq<Bytes>, last: Bytes, err: IoError)
    requires forall k :: 0 <= k < |script| ==> |script[k]| <= BUF_SIZE
    requires Faithful(script, last, err)
    ensures ValidChunks(script, BUF_SIZE) && last == []
  {
    hide Faithful;
    ReadFromFaithful(script, last, err);
  }
}
