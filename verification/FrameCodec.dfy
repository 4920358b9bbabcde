/** frame.go: the binary frame, its accessors, the encoder and the decoder. */
module FrameCodec {
  import opened Bytes
  import opened Io

  const ERR_FRAME: nat := 0x4
  const RECV_FRAME: nat := 0x8
  const PERM_FRAME: nat := 0x16

  const HEADER_LENGTH: nat := 12

  // The accessors slice the frame; the conditions are those under which Go's slices do not panic.

  function Type(f: Bytes): nat
    requires |f| >= HEADER_LENGTH
  {
    Uint32(f[0..4])
  }

  function CommandLen(f: Bytes): nat
    requires |f| >= HEADER_LENGTH
  {
    Uint32(f[4..8])
  }

  function PayloadLen(f: Bytes): nat
    requires |f| >= HEADER_LENGTH
  {
    Uint32(f[8..12])
  }

  predicate Sliceable(f: Bytes) {
    |f| >= HEADER_LENGTH && PayloadLen(f) <= |f| - HEADER_LENGTH
  }

  function Command(f: Bytes): Bytes
    requires Sliceable(f)
  {
    f[HEADER_LENGTH..|f| - PayloadLen(f)]
  }

  function Payload(f: Bytes): Bytes
    requires Sliceable(f)
  {
    f[|f| - PayloadLen(f)..]
  }

  /** The header words; Go's uint32 cuts lengths to 32 bits. */
  function HeaderBytes(typ: nat, cmd: Bytes, payload: Bytes): (b: Bytes)
    requires typ < U32
    ensures |b| == HEADER_LENGTH
  {
    Le32(typ) + Le32(|cmd| % U32) + Le32(|payload| % U32)
  }

  function FrameBytes(typ: nat, cmd: Bytes, payload: Bytes): (b: Bytes)
    requires typ < U32
    ensures |b| == HEADER_LENGTH + |cmd| + |payload|
  {
    HeaderBytes(typ, cmd, payload) + (cmd + payload)
  }

  /** A frame is worth its triple: the accessors recover what the encoder put in. */
  lemma AccessorsInvertFrame(typ: nat, cmd: Bytes, payload: Bytes)
    requires typ < U32 && |cmd| < U32 && |payload| < U32
    ensures var f := FrameBytes(typ, cmd, payload);
      Sliceable(f) && Type(f) == typ && Command(f) == cmd && Payload(f) == payload && CommandLen(f) == |cmd|
  {
    hide Le32, Uint32;
    var f := FrameBytes(typ, cmd, payload);
    LittleEndianInverse(typ, Le32(typ));
    LittleEndianInverse(|cmd|, Le32(|cmd|));
    LittleEndianInverse(|payload|, Le32(|payload|));
    assert f[0..4] == Le32(typ);
    assert f[4..8] == Le32(|cmd|);
    assert f[8..12] == Le32(|payload|);
  }

  /** Decode: the frame and where the line stands, or an error. */
  datatype Decoded = Decoded(frame: Bytes, err: Option<IoError>, pos: nat)

  datatype Filled = Filled(bytes: Bytes, pos: nat)

  /** The body loop, for a buffer `b` of any size with `read` bytes of it filled, and `total` bytes wanted. */
  function FillBody(line: Line, pos: nat, b: Bytes, read: nat, total: nat): (r: Filled)
    requires pos <= |line.data| && read <= |b|
    ensures |r.bytes| == |b| && pos <= r.pos <= |line.data|
    decreases |line.data| - pos
  {
    match FillRound(line, pos, b, read, total)
    case Ended(r) => r
    case Again(pos', b', read') => FillBody(line, pos', b', read', total)
  }

  datatype Round = Ended(r: Filled) | Again(pos: nat, b: Bytes, read: nat)

  function FillRound(line: Line, pos: nat, b: Bytes, read: nat, total: nat): (r: Round)
    requires pos <= |line.data| && read <= |b|
    ensures r.Ended? ==> |r.r.bytes| == |b| && pos <= r.r.pos <= |line.data|
    ensures r.Again? ==> |r.b| == |b| && r.read <= |b| && pos < r.pos <= |line.data|
  {
    if read >= total then Ended(Filled(b, pos))
    else
      var got := ReadAt(line, pos, |b| - read).bytes;
      var b', n := Splice(b, read, got), read + |got|;
      if n == total || got == [] then Ended(Filled(b', pos + |got|)) else Again(pos + |got|, b', n)
  }

  /** `kept` is the buffer of an earlier Decode of the same decoder; a fresh decoder allocates one of the right size. */
  function DecodeAt(line: Line, pos: nat, kept: Option<Bytes>): (r: Decoded)
    requires pos <= |line.data|
    ensures pos <= r.pos <= |line.data|
  {
    var h := ReadAt(line, pos, HEADER_LENGTH);
    if h.err.Some? then Decoded([], h.err, pos)
    else if |h.bytes| != HEADER_LENGTH then Decoded([], Some(ShortBuffer), pos + |h.bytes|)
    else
      var total := CommandLen(h.bytes) + PayloadLen(h.bytes);
      var b := if kept.Some? then kept.value else Zeros(total);
      var body := FillBody(line, pos + HEADER_LENGTH, b, 0, total);
      Decoded(h.bytes + body.bytes, None, body.pos)
  }

  /** With a buffer of the right size the loop collects the body however it is cut; a missing tail stays zero. */
  lemma {:induction false} FillBodyCollects(line: Line, pos: nat, b: Bytes, read: nat)
    requires pos <= |line.data| && read <= |b|
    ensures var k := Min(|b| - read, |line.data| - pos);
      FillBody(line, pos, b, read, |b|) == Filled(Splice(b, read, line.data[pos..pos + k]), pos + k)
    decreases |line.data| - pos
  {
    hide FillBody, Splice;
    FillUnfold(line, pos, b, read, |b|);
    var k := Min(|b| - read, |line.data| - pos);
    var got := ReadAt(line, pos, |b| - read).bytes;
    if read == |b| {
      assert line.data[pos..pos + k] == [];
      SpliceNothing(b, read);
    } else if got == [] {
      assert line.data[pos..pos + k] == got;
    } else {
      var b', n := Splice(b, read, got), read + |got|;
      if n != |b| {
        FillBodyCollects(line, pos + |got|, b', n);
        var rest := line.data[pos + |got|..pos + k];
        assert line.data[pos..pos + k] == got + rest;
        SpliceTwice(b, read, got, rest);
      } else {
        assert line.data[pos..pos + k] == got;
      }
    }
  }

  lemma FillUnfold(line: Line, pos: nat, b: Bytes, read: nat, total: nat)
    requires pos <= |line.data| && read <= |b|
    ensures FillBody(line, pos, b, read, total) ==
      match FillRound(line, pos, b, read, total)
      case Ended(r) => r
      case Again(pos', b', read') => FillBody(line, pos', b', read', total)
  {
  }

  /**
   A frame on the line decodes to itself and nothing past it is consumed, whatever the fragmentation
   of its body, if and only if its header arrives whole.
   */
  lemma DecodeFrame(line: Line, pos: nat, typ: nat, cmd: Bytes, payload: Bytes)
    requires typ < U32 && |cmd| < U32 && |payload| < U32
    requires At(line.data, pos, FrameBytes(typ, cmd, payload))
    ensures DecodeAt(line, pos, None)
         == Decoded(FrameBytes(typ, cmd, payload), None, pos + |FrameBytes(typ, cmd, payload)|)
      <==> line.window(pos) + 1 >= HEADER_LENGTH
    ensures line.window(pos) + 1 < HEADER_LENGTH ==> DecodeAt(line, pos, None).err == Some(ShortBuffer)
  {
    hide FillBody, Splice;
    var f, h, body := FrameBytes(typ, cmd, payload), HeaderBytes(typ, cmd, payload), cmd + payload;
    AtSplit(line.data, pos, h, body);
    if line.window(pos) + 1 >= HEADER_LENGTH {
      assert ReadAt(line, pos, HEADER_LENGTH).bytes == h;
      HeaderLengths(typ, cmd, payload);
      FillBodyCollects(line, pos + HEADER_LENGTH, Zeros(|body|), 0);
      SpliceAll(Zeros(|body|), body);
    }
  }

  /** A frame header can be read there: all of it is on the line, and arrives in one read. */
  predicate HeaderThere(line: Line, pos: nat)
    requires pos <= |line.data|
  {
    |line.data| - pos >= HEADER_LENGTH && line.window(pos) + 1 >= HEADER_LENGTH
  }

  /**
   How Decode ends, on any line and with any decoder: without an error exactly when a header is there;
   with the connection's end, and nothing consumed, when nothing is left; else as a short buffer, with
   what there was of the header gone.
   */
  lemma DecodeOutcome(line: Line, pos: nat, kept: Option<Bytes>)
    requires pos <= |line.data|
    ensures DecodeAt(line, pos, kept).err == None <==> HeaderThere(line, pos)
    ensures pos == |line.data| ==> DecodeAt(line, pos, kept) == Decoded([], Some(line.end), pos)
    ensures pos < |line.data| && !HeaderThere(line, pos) ==>
      DecodeAt(line, pos, kept) == Decoded([], Some(ShortBuffer), pos + Min(line.window(pos) + 1, |line.data| - pos))
  {
    hide FillBody;
  }

  /**
   And with what: the header as it stands, and the buffer with all that was consumed after it written
   over its start. Reading stops only when the announced bytes are there, the buffer is full, or the line ends.
   */
  lemma DecodedFrame(line: Line, pos: nat, kept: Option<Bytes>)
    requires pos <= |line.data| && HeaderThere(line, pos)
    ensures var r, h := DecodeAt(line, pos, kept), line.data[pos..pos + HEADER_LENGTH];
      var total := CommandLen(h) + PayloadLen(h);
      var b, n := if kept.Some? then kept.value else Zeros(total), r.pos - pos - HEADER_LENGTH;
      && 0 <= n <= |b| && r.frame == h + Splice(b, 0, line.data[pos + HEADER_LENGTH..r.pos])
      && (n >= total || n == |b| || r.pos == |line.data|)
  {
    hide FillBody, Splice, ReadAt, CommandLen, PayloadLen;
    var h := line.data[pos..pos + HEADER_LENGTH];
    HeaderRead(line, pos, h);
    var total := CommandLen(h) + PayloadLen(h);
    var b := if kept.Some? then kept.value else Zeros(total);
    FillBodyAlways(line, pos + HEADER_LENGTH, b, 0, total);
  }

  /** The body loop, for a buffer of any size. */
  lemma {:induction false} FillBodyAlways(line: Line, pos: nat, b: Bytes, read: nat, total: nat)
    requires pos <= |line.data| && read <= |b|
    ensures var r := FillBody(line, pos, b, read, total); var n := r.pos - pos;
      && read + n <= |b| && r.bytes == Splice(b, read, line.data[pos..r.pos])
      && (read + n >= total || read + n == |b| || r.pos == |line.data|)
    decreases |line.data| - pos
  {
    hide FillBody, Splice, At;
    FillUnfold(line, pos, b, read, total);
    var step := FillRound(line, pos, b, read, total);
    assert line.data[pos..pos] == [];
    SpliceNothing(b, read);
    if read < total {
      var got := ReadAt(line, pos, |b| - read).bytes;
      GotSlice(line, pos, |b| - read);
      if step.Again? {
        FillBodyAlways(line, pos + |got|, step.b, step.read, total);
        var last := FillBody(line, pos, b, read, total).pos;
        var rest := line.data[pos + |got|..last];
        assert line.data[pos..last] == got + rest;
        SpliceTwice(b, read, got, rest);
      }
    }
  }

  lemma GotSlice(line: Line, pos: nat, n: nat)
    requires pos <= |line.data|
    ensures var got := ReadAt(line, pos, n).bytes;
      |got| <= n && pos + |got| <= |line.data| && got == line.data[pos..pos + |got|]
      && (got == [] ==> n == 0 || pos == |line.data|)
  {
  }

  /**
   A connection that ends inside a frame's body, at EOF or by a failure: the decoder returns the frame
   with zeros for what is missing, and no error.
   */
  lemma DecodeTruncated(line: Line, pos: nat, typ: nat, cmd: Bytes, payload: Bytes)
    requires typ < U32 && |cmd| < U32 && |payload| < U32
    requires At(line.data, pos, HeaderBytes(typ, cmd, payload))
    requires |line.data| - pos < HEADER_LENGTH + |cmd| + |payload|
    requires line.window(pos) + 1 >= HEADER_LENGTH
    ensures var h, got := HeaderBytes(typ, cmd, payload), line.data[pos + HEADER_LENGTH..];
      DecodeAt(line, pos, None) == Decoded(h + (got + Zeros(|cmd| + |payload| - |got|)), None, |line.data|)
  {
    hide FillBody, Splice, ReadAt, HeaderBytes, CommandLen, PayloadLen;
    var h, got, total := HeaderBytes(typ, cmd, payload), line.data[pos + HEADER_LENGTH..], |cmd| + |payload|;
    HeaderRead(line, pos, h);
    HeaderLengths(typ, cmd, payload);
    FillBodyCollects(line, pos + HEADER_LENGTH, Zeros(total), 0);
    assert line.data[pos + HEADER_LENGTH..pos + HEADER_LENGTH + |got|] == got;
    SpliceStart(Zeros(total), got);
    assert Zeros(total)[|got|..] == Zeros(total - |got|);
  }

  lemma HeaderRead(line: Line, pos: nat, h: Bytes)
    requires |h| == HEADER_LENGTH && At(line.data, pos, h)
    requires line.window(pos) + 1 >= HEADER_LENGTH
    ensures ReadAt(line, pos, HEADER_LENGTH) == ReadResult(h, None)
  {
  }

  /** A decoder is good for one frame: its second result keeps the length of the first. */
  lemma ReusedDecoder(line: Line, pos: nat, typ: nat, cmd: Bytes, payload: Bytes, kept: Bytes)
    requires typ < U32 && |cmd| < U32 && |payload| < U32
    requires At(line.data, pos, FrameBytes(typ, cmd, payload))
    requires line.window(pos) + 1 >= HEADER_LENGTH
    ensures DecodeAt(line, pos, Some(kept))
         == Decoded(FrameBytes(typ, cmd, payload), None, pos + |FrameBytes(typ, cmd, payload)|)
      <==> |kept| == |cmd| + |payload|
  {
    hide FillBody, Splice;
    var f, h, body := FrameBytes(typ, cmd, payload), HeaderBytes(typ, cmd, payload), cmd + payload;
    AtSplit(line.data, pos, h, body);
    assert ReadAt(line, pos, HEADER_LENGTH).bytes == h;
    HeaderLengths(typ, cmd, payload);
    if |kept| == |body| {
      FillBodyCollects(line, pos + HEADER_LENGTH, kept, 0);
      SpliceAll(kept, body);
    }
  }

  lemma HeaderLengths(typ: nat, cmd: Bytes, payload: Bytes)
    requires typ < U32 && |cmd| < U32 && |payload| < U32
    ensures var h := HeaderBytes(typ, cmd, payload); CommandLen(h) == |cmd| && PayloadLen(h) == |payload|
  {
    hide Le32, Uint32;
    var h := HeaderBytes(typ, cmd, payload);
    LittleEndianInverse(|cmd|, Le32(|cmd|));
    LittleEndianInverse(|payload|, Le32(|payload|));
    assert h[4..8] == Le32(|cmd|);
    assert h[8..12] == Le32(|payload|);
  }

  lemma SpliceAll(s: Bytes, part: Bytes)
    requires |s| == |part|
    ensures Splice(s, 0, part) == part
  {
  }

  /** Whatever a fresh decoder returns without an error, its accessors stay in bounds. */
  lemma DecodedIsSliceable(line: Line, pos: nat)
    requires pos <= |line.data|
    requires DecodeAt(line, pos, None).err.None?
    ensures Sliceable(DecodeAt(line, pos, None).frame)
  {
  }

  datatype Triple = Triple(typ: nat, cmd: Bytes, payload: Bytes)

  predicate Encodable(t: Triple) {
    t.typ < U32 && |t.cmd| < U32 && |t.payload| < U32
  }

  predicate AllEncodable(ts: seq<Triple>) {
    forall k :: 0 <= k < |ts| ==> Encodable(ts[k])
  }

  function AllFrames(ts: seq<Triple>): Bytes
    requires AllEncodable(ts)
  {
    if ts == [] then [] else FrameBytes(ts[0].typ, ts[0].cmd, ts[0].payload) + AllFrames(ts[1..])
  }

  predicate WholeFrameHeaders(window: nat -> nat, pos: nat, ts: seq<Triple>)
    requires AllEncodable(ts)
    decreases |ts|
  {
    ts != [] ==>
      && window(pos) + 1 >= HEADER_LENGTH
      && WholeFrameHeaders(window, pos + |FrameBytes(ts[0].typ, ts[0].cmd, ts[0].payload)|, ts[1..])
  }

  class Encoder {
    const w: Conn
    var buf: Bytes

    constructor (w: Conn)
      ensures this.w == w && buf == []
    {
      this.w, buf := w, [];
    }

    /** Encode; io.CopyN moves the assembled frame to the connection. */
    method Encode(typ: nat, cmd: Bytes, payload: Bytes) returns (err: Option<IoError>)
      requires w.Valid() && typ < U32
      requires buf == []
      modifies this, w`data
      ensures w.Valid()
      ensures old(w.data) <= w.data <= old(w.data) + FrameBytes(typ, cmd, payload)
      ensures err.None? ==> w.data == old(w.data) + FrameBytes(typ, cmd, payload) && buf == []
      ensures err.Some? ==> err == Some(CONN_FAILURE)
      ensures w.reliable ==> err.None?
    {
      var tl := |cmd| + |payload| + HEADER_LENGTH;
      buf := buf + Le32(typ);
      buf := buf + Le32(|cmd| % U32);
      buf := buf + Le32(|payload| % U32);
      buf := buf + cmd;
      buf := buf + payload;
      assert buf == FrameBytes(typ, cmd, payload);
      var written;
      written, err := w.Write(buf[..tl]);
      buf := buf[written..];
      if err.None? && written != tl {
        err := Some(ShortWrite);
      }
    }
  }

  class Decoder {
    const r: Conn
    var buf: array?<Byte>
    const hdr: array<Byte>

    constructor (r: Conn)
      ensures this.r == r && buf == null && hdr.Length == HEADER_LENGTH && fresh(hdr)
    {
      this.r, buf := r, null;
      hdr := new Byte[HEADER_LENGTH](_ => 0);
    }

    ghost function Kept(): Option<Bytes>
      reads this, buf
    {
      if buf == null then None else Some(buf[..])
    }

    ghost predicate Valid()
      reads this, r
    {
      r.Valid() && hdr.Length == HEADER_LENGTH && buf != hdr
    }

    method Decode() returns (frame: Bytes, err: Option<IoError>)
      requires Valid()
      modifies this`buf, hdr, r`pos, buf
      ensures Valid()
      ensures DecodeAt(r.AsLine(), old(r.pos), old(Kept())) == Decoded(frame, err, r.pos)
    {
      hide FillBody, Uint32;
      ghost var line, kept := r.AsLine(), Kept();
      var rn, e := r.Read(hdr, 0, HEADER_LENGTH);
      if e.Some? {
        return [], e;
      }
      if rn != HEADER_LENGTH {
        return [], Some(ShortBuffer);
      }
      var h := hdr[..];
      assert h == ReadAt(line, old(r.pos), HEADER_LENGTH).bytes;
      var total := CommandLen(h) + PayloadLen(h);
      if buf == null {
        buf := new Byte[total](_ => 0);
        assert buf[..] == Zeros(total);
      }
      FillLoop(total);
      return h + buf[..], None;
    }

    method FillLoop(total: nat)
      requires Valid() && buf != null
      modifies buf, r`pos
      ensures Valid()
      ensures FillBody(r.AsLine(), old(r.pos), old(buf[..]), 0, total) == Filled(buf[..], r.pos)
    {
      hide FillBody, Splice, ReadAt;
      ghost var line, start, before := r.AsLine(), r.pos, buf[..];
      var read: nat := 0;
      while read < total
        invariant Valid() && buf != null && buf == old(buf) && r.AsLine() == line
        invariant read <= buf.Length
        invariant FillBody(line, start, before, 0, total) == FillBody(line, r.pos, buf[..], read, total)
        decreases |line.data| - r.pos
      {
        FillUnfold(line, r.pos, buf[..], read, total);
        var rn, re := r.Read(buf, read, buf.Length);
        read := read + rn;
        if read == total || rn == 0 {
          return;
        }
      }
      FillUnfold(line, r.pos, buf[..], read, total);
    }
  }

  /** Every frame of the list onto the connection, with a fresh encoder each. */
  method EncodeAll(w: Conn, ts: seq<Triple>)
    requires w.Valid() && w.reliable && AllEncodable(ts)
    modifies w`data
    ensures w.Valid()
    ensures w.data == old(w.data) + AllFrames(ts)
  {
    hide FrameBytes;
    ghost var before := w.data;
    var i := 0;
    assert ts[0..] == ts;
    while i < |ts|
      invariant i <= |ts| && w.Valid()
      invariant w.data + AllFrames(ts[i..]) == before + AllFrames(ts)
    {
      ghost var sofar := w.data;
      var enc := new Encoder(w);
      var err := enc.Encode(ts[i].typ, ts[i].cmd, ts[i].payload);
      assert ts[i..][1..] == ts[i + 1..];
      Associative(sofar, FrameBytes(ts[i].typ, ts[i].cmd, ts[i].payload), AllFrames(ts[i + 1..]));
      i := i + 1;
    }
    assert ts[i..] == [];
  }

  /** The frames of `ts` stand on the line at `pos`, and their headers arrive whole. */
  ghost predicate Standing(line: Line, pos: nat, ts: seq<Triple>) {
    AllEncodable(ts) && At(line.data, pos, AllFrames(ts)) && WholeFrameHeaders(line.window, pos, ts)
  }

  function FrameOf(t: Triple): (f: Bytes)
    requires Encodable(t)
    ensures |f| >= HEADER_LENGTH
  {
    FrameBytes(t.typ, t.cmd, t.payload)
  }

  lemma StandingTail(line: Line, pos: nat, ts: seq<Triple>)
    requires Standing(line, pos, ts) && ts != []
    ensures Encodable(ts[0]) && AllEncodable(ts[1..])
    ensures At(line.data, pos, FrameOf(ts[0])) && line.window(pos) + 1 >= HEADER_LENGTH
    ensures Standing(line, pos + |FrameOf(ts[0])|, ts[1..])
    ensures |AllFrames(ts)| == |FrameOf(ts[0])| + |AllFrames(ts[1..])|
  {
    hide FrameBytes, At;
    assert AllEncodable(ts[1..]);
    AtSplit(line.data, pos, FrameOf(ts[0]), AllFrames(ts[1..]));
  }

  lemma DecodeFirst(line: Line, pos: nat, ts: seq<Triple>)
    requires Standing(line, pos, ts) && ts != []
    ensures AllEncodable(ts[1..])
    ensures DecodeAt(line, pos, None).err == None && Sliceable(DecodeAt(line, pos, None).frame)
    ensures var f := DecodeAt(line, pos, None).frame; Triple(Type(f), Command(f), Payload(f)) == ts[0]
    ensures Standing(line, DecodeAt(line, pos, None).pos, ts[1..])
    ensures DecodeAt(line, pos, None).pos + |AllFrames(ts[1..])| == pos + |AllFrames(ts)|
  {
    hide FrameBytes, DecodeAt, Sliceable, Type, Command, Payload, At, Standing, AllFrames;
    var t := ts[0];
    StandingTail(line, pos, ts);
    DecodeFrame(line, pos, t.typ, t.cmd, t.payload);
    AccessorsInvertFrame(t.typ, t.cmd, t.payload);
  }

  /**
   The frames of a list, decoded one after the other with a fresh decoder each, are the list again,
   read through the accessors, and exactly their bytes are consumed.
   */
  method DecodeAll(r: Conn, ghost ts: seq<Triple>, count: nat) returns (got: seq<Triple>)
    requires r.Valid() && count == |ts| && AllEncodable(ts)
    requires Standing(r.AsLine(), r.pos, ts)
    modifies r`pos
    ensures r.Valid()
    ensures got == ts && r.pos == old(r.pos) + |AllFrames(ts)|
  {
    hide DecodeAt, PayloadLen, Type, Command, Payload, Standing, AllFrames;
    got := [];
    ghost var rest := ts;
    while |got| < count
      invariant r.Valid() && AllEncodable(rest) && |got| + |rest| == count
      invariant got + rest == ts
      invariant Standing(r.AsLine(), r.pos, rest)
      invariant r.pos + |AllFrames(rest)| == old(r.pos) + |AllFrames(ts)|
    {
      DecodeFirst(r.AsLine(), r.pos, rest);
      var dec := new Decoder(r);
      var f, err := dec.Decode();
      assert [rest[0]] + rest[1..] == rest;
      Associative(got, [rest[0]], rest[1..]);
      got := got + [Triple(Type(f), Command(f), Payload(f))];
      rest := rest[1..];
    }
    assert rest == [];
    NoFrames();
  }

  lemma NoFrames()
    ensures AllFrames([]) == []
  {
  }

  /** Encoding a list of frames onto a drained connection and decoding it gives the list and drains the connection. */
  method Transfer(c: Conn, ts: seq<Triple>) returns (got: seq<Triple>)
    requires c.Valid() && c.reliable && c.pos == |c.data| && AllEncodable(ts)
    requires WholeFrameHeaders(c.window, c.pos, ts)
    modifies c`data, c`pos
    ensures c.Valid()
    ensures got == ts && c.pos == |c.data|
  {
    hide AllFrames, WholeFrameHeaders;
    ghost var before := c.data;
    EncodeAll(c, ts);
    assert c.data[|before|..|before| + |AllFrames(ts)|] == AllFrames(ts);
    got := DecodeAll(c, ts, |ts|);
  }
}
