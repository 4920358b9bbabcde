/** The open-stream request and its reply: sendFrame against recvFrame (frame.go), as OpenStream and readFrame use them. */
module Handshake {
  import opened Bytes
  import opened Io
  import opened FrameCodec
  import opened HubIndex

  /** An I/O error, or an error made from the peer's text. */
  datatype HandshakeError = OnWire(err: IoError) | FromPeer(text: Bytes)

  /** A check of a stream name and a token; None accepts, Some carries the error text. */
  type Validator = (Bytes, Bytes) -> Option<Bytes>

  /** The client's stream opened, or the error that OpenStream returns. */
  datatype Opened = Opened(reply: Bytes) | Refused(err: HandshakeError)

  /** The reply that recvFrame encodes. */
  function Reply(name: Bytes, verdict: Option<Bytes>): Triple {
    if verdict.None? then Triple(RECV_FRAME, name, []) else Triple(ERR_FRAME, name, verdict.value)
  }

  /** What a client makes of a reply to its request for `name`. */
  function Judged(reply: Bytes, name: Bytes): (r: Opened)
    requires Sliceable(reply)
    ensures r.Opened? ==> r.reply == reply
    ensures r.Opened? <==> Type(reply) == RECV_FRAME || (Command(reply) == name && !IsRefusal(reply))
    ensures IsRefusal(reply) ==> r == Refused(FromPeer(Payload(reply)))
    ensures r.Refused? && !IsRefusal(reply) ==> r == Refused(OnWire(UnexpectedEof))
  {
    if IsRefusal(reply) then Refused(FromPeer(Payload(reply)))
    else if Command(reply) != name && Type(reply) != RECV_FRAME then Refused(OnWire(UnexpectedEof))
    else Opened(reply)
  }

  predicate IsRefusal(reply: Bytes)
    requires |reply| >= HEADER_LENGTH
  {
    Type(reply) == ERR_FRAME || Type(reply) == PERM_FRAME
  }

  /** One side's view of a stream: where it reads and where it writes. */
  class Endpoint {
    const rx: Conn
    const tx: Conn

    constructor (rx: Conn, tx: Conn)
      ensures this.rx == rx && this.tx == tx
    {
      this.rx, this.tx := rx, tx;
    }

    ghost predicate Valid()
      reads this, rx, tx
    {
      rx != tx && rx.Valid() && tx.Valid()
    }

    /** The first half of sendFrame: the request goes out, or a prefix of it with the connection's error. */
    method Request(name: Bytes, typ: nat, data: Bytes) returns (err: Option<HandshakeError>)
      requires Valid() && typ < U32
      modifies tx`data
      ensures Valid()
      ensures old(tx.data) <= tx.data <= old(tx.data) + FrameBytes(typ, name, data)
      ensures err.None? ==> tx.data == old(tx.data) + FrameBytes(typ, name, data)
      ensures err.Some? ==> err == Some(OnWire(CONN_FAILURE))
      ensures tx.reliable ==> err.None?
    {
      var enc := new Encoder(tx);
      var e := enc.Encode(typ, name, data);
      err := if e.Some? then Some(OnWire(e.value)) else None;
    }

    /** The second half of sendFrame: the reply comes in, and error and permission frames become errors. */
    method AwaitReply() returns (frm: Bytes, err: Option<HandshakeError>)
      requires Valid()
      modifies rx`pos
      ensures Valid()
      ensures var d := DecodeAt(rx.AsLine(), old(rx.pos), None);
        && rx.pos == d.pos
        && (err.None? ==> Sliceable(frm) && frm == d.frame && Type(frm) != ERR_FRAME && Type(frm) != PERM_FRAME)
        && (d.err.Some? ==> err == Some(OnWire(d.err.value)))
        && (d.err.None? && (Type(d.frame) == ERR_FRAME || Type(d.frame) == PERM_FRAME) ==>
              Sliceable(d.frame) && err == Some(FromPeer(Payload(d.frame))))
        && (d.err.None? && Type(d.frame) != ERR_FRAME && Type(d.frame) != PERM_FRAME ==> err.None?)
      ensures old(rx.pos) == |rx.data| ==> frm == [] && err == Some(OnWire(rx.end))
      ensures old(rx.pos) < |rx.data| && !HeaderThere(rx.AsLine(), old(rx.pos)) ==>
        frm == [] && err == Some(OnWire(ShortBuffer))
    {
      DecodeOutcome(rx.AsLine(), rx.pos, None);
      DecodedIfFine(rx.AsLine(), rx.pos);
      hide DecodeAt;
      var dec := new Decoder(rx);
      var e;
      frm, e := dec.Decode();
      if e.Some? {
        return [], Some(OnWire(e.value));
      }
      err := None;
      if Type(frm) == ERR_FRAME || Type(frm) == PERM_FRAME {
        err := Some(FromPeer(Payload(frm)));
        frm := [];
      }
    }

    /**
     OpenStream after its request went out, against any peer. A reply is good if it is no error or
     permission frame and echoes the name or is a receive frame; any other reply but those ends as an
     unexpected end, and so does no reply as the connection's error.
     */
    method Conclude(name: Bytes) returns (result: Opened)
      requires Valid()
      modifies rx`pos
      ensures Valid()
      ensures var d := DecodeAt(rx.AsLine(), old(rx.pos), None);
        && rx.pos == d.pos
        && (d.err.Some? ==> result == Refused(OnWire(d.err.value)))
        && (d.err.None? ==> Sliceable(d.frame) && result == Judged(d.frame, name))
      ensures old(rx.pos) == |rx.data| ==> result == Refused(OnWire(rx.end))
    {
      var frm, e := AwaitReply();
      hide DecodeAt, Type, Command, Payload, Sliceable;
      if e.Some? {
        return Refused(e.value);
      }
      if Command(frm) != name && Type(frm) != RECV_FRAME {
        return Refused(OnWire(UnexpectedEof));
      }
      return Opened(frm);
    }

    /** recvFrame with the validator: it echoes the command and answers with the verdict, unless the connection fails. */
    method RecvFrame(check: Validator)
      returns (frm: Bytes, err: Option<HandshakeError>, ghost failed: bool)
      requires Valid()
      modifies rx`pos, tx`data
      ensures Valid()
      ensures var d := DecodeAt(rx.AsLine(), old(rx.pos), None);
        && rx.pos == d.pos
        && (d.err.Some? ==> err == Some(OnWire(d.err.value)) && tx.data == old(tx.data))
        && (d.err.None? ==>
              && Sliceable(d.frame)
              && var verdict := check(Command(d.frame), Payload(d.frame));
              && var written := if verdict.None? then FrameBytes(RECV_FRAME, Command(d.frame), [])
                                else FrameBytes(ERR_FRAME, Command(d.frame), verdict.value);
              && old(tx.data) <= tx.data <= old(tx.data) + written
              && (!failed ==>
                    && frm == d.frame && tx.data == old(tx.data) + written
                    && err == (if verdict.None? then None else Some(FromPeer(verdict.value)))))
      ensures old(rx.pos) == |rx.data| ==> frm == [] && err == Some(OnWire(rx.end)) && tx.data == old(tx.data)
      ensures old(rx.pos) < |rx.data| && !HeaderThere(rx.AsLine(), old(rx.pos)) ==>
        frm == [] && err == Some(OnWire(ShortBuffer)) && tx.data == old(tx.data)
      ensures HeaderThere(rx.AsLine(), old(rx.pos)) && failed ==> frm == [] && err == Some(OnWire(CONN_FAILURE))
      ensures failed ==> frm == [] && err.Some? && err.value.OnWire?
      ensures failed && tx.reliable ==> DecodeAt(rx.AsLine(), old(rx.pos), None).err.Some?
    {
      DecodeOutcome(rx.AsLine(), rx.pos, None);
      DecodedIfFine(rx.AsLine(), rx.pos);
      hide DecodeAt;
      var dec := new Decoder(rx);
      var e;
      frm, e := dec.Decode();
      if e.Some? {
        return [], Some(OnWire(e.value)), true;
      }
      err, failed := None, false;
      var frameTyp, frameErr := RECV_FRAME, [];
      var verdict := check(Command(frm), Payload(frm));
      if verdict.Some? {
        frameTyp, frameErr := ERR_FRAME, verdict.value;
        err := Some(FromPeer(verdict.value));
      }
      var enc := new Encoder(tx);
      var w := enc.Encode(frameTyp, Command(frm), frameErr);
      if w.Some? {
        return [], Some(OnWire(w.value)), true;
      }
    }
  }

  lemma DecodedIfFine(line: Line, pos: nat)
    requires pos <= |line.data|
    ensures DecodeAt(line, pos, None).err.None? ==> Sliceable(DecodeAt(line, pos, None).frame)
  {
    if DecodeAt(line, pos, None).err.None? {
      DecodedIsSliceable(line, pos);
    }
  }

  predicate TokenAccepted(verifyToken: Option<Validator>, name: Bytes, token: Bytes) {
    verifyToken.Some? ==> verifyToken.value(name, token) == None
  }

  /**
   The validator of session.readFrame on a peer whose registry is `r`: validateToken, if the wire has a
   token check, before validateStreamName. `text` gives the text of a lookup error.
   */
  function Admission(verifyToken: Option<Validator>, r: Registry, text: LookupError -> Bytes): Validator {
    (name: Bytes, token: Bytes) =>
      var refusal := if verifyToken.Some? then verifyToken.value(name, token) else None;
      if refusal.Some? then refusal
      else
        match Validate(r, name)
        case None => None
        case Some(err) => Some(text(err))
  }

  /**
   A stream is admitted exactly when the token check accepts and the peer has somewhere to take the
   name; a refused token's text comes first, and an unknown name's is that of the failed dispatch.
   */
  lemma AdmissionNeedsBoth(verifyToken: Option<Validator>, r: Registry, text: LookupError -> Bytes, name: Bytes, token: Bytes)
    ensures Admission(verifyToken, r, text)(name, token) == None
      <==> TokenAccepted(verifyToken, name, token) && Reachable(r, name)
    ensures !TokenAccepted(verifyToken, name, token) ==>
      Admission(verifyToken, r, text)(name, token) == verifyToken.value(name, token)
    ensures TokenAccepted(verifyToken, name, token) && !Reachable(r, name) ==>
      Dispatch(r, name).Unroutable? && Admission(verifyToken, r, text)(name, token) == Some(text(Dispatch(r, name).err))
  {
    AdmissionAgreesWithRouting(r, name);
    hide Dispatch, Reachable, Validate;
  }

  /**
   OpenStream against the peer's recvFrame. For every name, token and validator the client succeeds
   exactly when the validator accepts, with its own name echoed in a receive frame; otherwise its error
   text is the validator's. The peer sees the name and the token. Both directions end empty, so the
   stream's data starts at a clean boundary.
   */
  method OpenStream(client: Endpoint, server: Endpoint, name: Bytes, token: Bytes, check: Validator)
    returns (result: Opened, seen: Bytes, peerErr: Option<HandshakeError>)
    requires client.Valid() && client.rx == server.tx && client.tx == server.rx
    requires client.tx.reliable && server.tx.reliable
    requires client.rx.pos == |client.rx.data| && server.rx.pos == |server.rx.data|
    requires |name| < U32 && |token| < U32 && (check(name, token).Some? ==> |check(name, token).value| < U32)
    requires server.rx.window(server.rx.pos) + 1 >= HEADER_LENGTH
    requires client.rx.window(client.rx.pos) + 1 >= HEADER_LENGTH
    modifies client.tx, server.tx
    ensures client.Valid()
    ensures result.Opened? <==> check(name, token) == None
    ensures result.Opened? ==>
      Sliceable(result.reply) && Type(result.reply) == RECV_FRAME && Command(result.reply) == name && Payload(result.reply) == []
    ensures result.Refused? ==> check(name, token).Some? && result.err == FromPeer(check(name, token).value)
    ensures Sliceable(seen) && Type(seen) == PERM_FRAME && Command(seen) == name && Payload(seen) == token
    ensures peerErr == (if check(name, token) == None then None else Some(result.err))
    ensures client.rx.pos == |client.rx.data| && server.rx.pos == |server.rx.data|
  {
    hide DecodeAt, FrameBytes, Command, Payload, Type, Sliceable;
    ghost var reply := Reply(name, check(name, token));

    var e := client.Request(name, PERM_FRAME, token);
    ArrivesAlone(server.rx, old(server.rx.data), Triple(PERM_FRAME, name, token));
    ghost var failed;
    seen, peerErr, failed := server.RecvFrame(check);
    ArrivesAlone(client.rx, old(client.rx.data), reply);
    result := client.Conclude(name);
  }

  /**
   session.OpenStream against session.readFrame. The client gets its stream exactly when the peer's
   token check accepts and its registry can route the name, to a session or to a handler; otherwise the
   error says which of the two it was.
   */
  method OpenNamedStream(client: Endpoint, server: Endpoint, name: Bytes, token: Bytes,
                         verifyToken: Option<Validator>, r: Registry, text: LookupError -> Bytes)
    returns (result: Opened)
    requires client.Valid() && client.rx == server.tx && client.tx == server.rx
    requires client.tx.reliable && server.tx.reliable
    requires client.rx.pos == |client.rx.data| && server.rx.pos == |server.rx.data|
    requires |name| < U32 && |token| < U32 && (forall err :: |text(err)| < U32)
    requires !TokenAccepted(verifyToken, name, token) ==> |verifyToken.value(name, token).value| < U32
    requires server.rx.window(server.rx.pos) + 1 >= HEADER_LENGTH
    requires client.rx.window(client.rx.pos) + 1 >= HEADER_LENGTH
    modifies client.tx, server.tx
    ensures client.Valid()
    ensures result.Opened? <==> TokenAccepted(verifyToken, name, token) && Reachable(r, name)
    ensures result.Opened? ==> !Dispatch(r, name).Unroutable?
    ensures !TokenAccepted(verifyToken, name, token) ==>
      result == Refused(FromPeer(verifyToken.value(name, token).value))
    ensures TokenAccepted(verifyToken, name, token) && !Reachable(r, name) ==>
      Dispatch(r, name).Unroutable? && result == Refused(FromPeer(text(Dispatch(r, name).err)))
    ensures client.rx.pos == |client.rx.data| && server.rx.pos == |server.rx.data|
  {
    AdmissionNeedsBoth(verifyToken, r, text, name, token);
    AdmissionAgreesWithRouting(r, name);
    hide Dispatch, Reachable, Validate;
    var seen, peerErr;
    result, seen, peerErr := OpenStream(client, server, name, token, Admission(verifyToken, r, text));
  }

  /** A frame just written onto a drained connection is decoded whole and leaves it drained. */
  lemma ArrivesAlone(c: Conn, before: Bytes, t: Triple)
    requires c.Valid() && Encodable(t)
    requires c.pos == |before| && c.data == before + FrameBytes(t.typ, t.cmd, t.payload)
    requires c.window(c.pos) + 1 >= HEADER_LENGTH
    ensures DecodeAt(c.AsLine(), c.pos, None) == Decoded(FrameBytes(t.typ, t.cmd, t.payload), None, |c.data|)
    ensures var f := FrameBytes(t.typ, t.cmd, t.payload);
      Sliceable(f) && Type(f) == t.typ && Command(f) == t.cmd && Payload(f) == t.payload
  {
    hide DecodeAt, FrameBytes;
    var f := FrameBytes(t.typ, t.cmd, t.payload);
    assert c.data[c.pos..c.pos + |f|] == f;
    DecodeFrame(c.AsLine(), c.pos, t.typ, t.cmd, t.payload);
    AccessorsInvertFrame(t.typ, t.cmd, t.payload);
  }
}
