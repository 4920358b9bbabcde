/**
 The two ends of a connection. Transport internals are replaced by an ordered, lossless byte queue
 whose reads return whatever part has arrived.
 */
module Io {
  import opened Bytes

  /** The size of every transfer buffer of the source. */
  const BUF_SIZE: nat := 1024

  datatype IoError = EOF | UnexpectedEof | ShortBuffer | ShortWrite | StreamClosed | Failure(code: nat)

  /** The error of a connection, and of a destination, that does not take everything. */
  const CONN_FAILURE := Failure(0)
  const SINK_FAILURE := Failure(1)

  /**
   What a receiver reads from: the bytes in order, how a read past the last one ends, and the
   schedule. A read that starts at position `p` finds `window(p) + 1` bytes arrived (or all the rest).
   Every read that returns something moves the position, so this covers every fragmentation.
   */
  datatype Line = Line(data: Bytes, window: nat -> nat, end: IoError)

  datatype ReadResult = ReadResult(bytes: Bytes, err: Option<IoError>)

  function ReadAt(line: Line, pos: nat, n: nat): (r: ReadResult)
    requires pos <= |line.data|
    ensures |r.bytes| <= n && At(line.data, pos, r.bytes)
    ensures r.err.Some? <==> pos == |line.data|
    ensures r.err.Some? ==> r.bytes == [] && r.err.value == line.end
    ensures r.err.None? && n > 0 ==> r.bytes != []
  {
    if pos == |line.data| then ReadResult([], Some(line.end))
    else
      var k := Min(n, Min(line.window(pos) + 1, |line.data| - pos));
      ReadResult(line.data[pos..pos + k], None)
  }

  /**
   Reading while the sender is still at work, possibly in the middle of a message, is reading the
   finished line on another schedule. A read at `pos` that finds only the first `sent` bytes written
   (it blocks until there is one to return) gives what the whole line gives on a schedule in which no
   more than those have arrived there. What is proved for every schedule therefore covers it.
   */
  lemma EarlyRead(full: Line, early: nat -> nat, sent: nat, pos: nat, n: nat)
    requires pos < sent <= |full.data|
    requires early(pos) == Min(full.window(pos), sent - pos - 1)
    ensures ReadAt(full.(data := full.data[..sent]), pos, n) == ReadAt(full.(window := early), pos, n)
  {
    hide ReadAt;
    var k := Min(n, Min(full.window(pos) + 1, sent - pos));
    ReadSlice(full.(data := full.data[..sent]), pos, n, k);
    ReadSlice(full.(window := early), pos, n, k);
    PrefixSlice(full.data, sent, pos, k);
  }

  lemma ReadSlice(line: Line, pos: nat, n: nat, k: nat)
    requires pos < |line.data| && k == Min(n, Min(line.window(pos) + 1, |line.data| - pos))
    ensures ReadAt(line, pos, n) == ReadResult(line.data[pos..pos + k], None)
  {
  }

  lemma PrefixSlice(d: Bytes, limit: nat, pos: nat, k: nat)
    requires pos + k <= limit <= |d|
    ensures d[..limit][pos..pos + k] == d[pos..pos + k]
  {
  }

  /** One direction of a connection: the sender appends, the receiver moves `pos`. */
  class Conn {
    var data: Bytes
    var pos: nat
    const window: nat -> nat
    const end: IoError
    const reliable: bool

    constructor (window: nat -> nat, end: IoError, reliable: bool)
      ensures data == [] && pos == 0
      ensures this.window == window && this.end == end && this.reliable == reliable
    {
      data, pos := [], 0;
      this.window, this.end, this.reliable := window, end, reliable;
    }

    ghost predicate Valid()
      reads this
    {
      pos <= |data|
    }

    ghost function AsLine(): Line
      reads this
    {
      Line(data, window, end)
    }

    /** Reads into `a[lo..hi]`. */
    method Read(a: array<Byte>, lo: nat, hi: nat) returns (n: nat, err: Option<IoError>)
      requires Valid()
      requires lo <= hi <= a.Length
      modifies `pos, a
      ensures Valid()
      ensures var r := ReadAt(AsLine(), old(pos), hi - lo);
        && n == |r.bytes| && err == r.err
        && pos == old(pos) + n
        && a[..] == Splice(old(a[..]), lo, r.bytes)
    {
      if pos == |data| {
        assert a[..] == Splice(a[..], lo, []);
        return 0, Some(end);
      }
      n := Min(hi - lo, Min(window(pos) + 1, |data| - pos));
      forall j | 0 <= j < n {
        a[lo + j] := data[pos + j];
      }
      pos := pos + n;
      err := None;
    }

    /** Appends what it accepts; by the contract of io.Writer, accepting less than everything is an error. */
    method Write(p: Bytes) returns (n: nat, err: Option<IoError>)
      requires Valid()
      modifies `data
      ensures Valid()
      ensures n <= |p| && data == old(data) + p[..n]
      ensures n < |p| ==> err.Some?
      ensures err.Some? ==> err == Some(CONN_FAILURE)
      ensures reliable ==> n == |p| && err.None?
    {
      n, err := |p|, None;
      if !reliable {
        n :| 0 <= n <= |p|;
        var fails: bool := *;
        if n < |p| || fails {
          err := Some(CONN_FAILURE);
        }
      }
      data := data + p[..n];
    }
  }

  /** Any destination that obeys the contract of io.Writer. */
  class Sink {
    var got: Bytes
    const reliable: bool

    constructor (reliable: bool)
      ensures got == [] && this.reliable == reliable
    {
      got, this.reliable := [], reliable;
    }

    method Write(p: Bytes) returns (n: nat, err: Option<IoError>)
      modifies this
      ensures n <= |p| && got == old(got) + p[..n]
      ensures n < |p| ==> err.Some?
      ensures err.Some? ==> err == Some(SINK_FAILURE)
      ensures reliable ==> n == |p| && err.None?
    {
      n, err := |p|, None;
      if !reliable {
        n :| 0 <= n <= |p|;
        var fails: bool := *;
        if n < |p| || fails {
          err := Some(SINK_FAILURE);
        }
      }
      got := got + p[..n];
    }
  }

  /**
   Any source that obeys the contract of io.Reader: each read returns the next script entry, and once
   the script is used up every read returns `last` together with `err`.
   */
  class Source {
    var script: seq<Bytes>
    const last: Bytes
    const err: IoError

    constructor (script: seq<Bytes>, last: Bytes, err: IoError)
      ensures this.script == script && this.last == last && this.err == err
    {
      this.script, this.last, this.err := script, last, err;
    }

    ghost predicate Fits(n: nat)
      reads this
    {
      |last| <= n && forall k :: 0 <= k < |script| ==> |script[k]| <= n
    }

    method Read(a: array<Byte>) returns (n: nat, e: Option<IoError>)
      requires Fits(a.Length)
      modifies this, a
      ensures Fits(a.Length)
      ensures old(script) == [] ==> script == [] && e == Some(err) && n == |last| && a[..n] == last
      ensures old(script) != [] ==>
        && script == old(script)[1..] && e == None
        && n == |old(script)[0]| && a[..n] == old(script)[0]
    {
      var p := if script == [] then last else script[0];
      forall j | 0 <= j < |p| {
        a[j] := p[j];
      }
      n := |p|;
      if script == [] {
        e := Some(err);
      } else {
        e := None;
        script := script[1..];
      }
    }
  }
}
