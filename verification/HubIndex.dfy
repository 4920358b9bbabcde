/** wirenet.go: the registry of sessions and the hub's index by stream name; and session.go's routing on top of it. */
module HubIndex {
  import opened Bytes

  type SessionId = nat
  type Handler = nat

  /** A stream name: a Go string, that is bytes. */
  type Name = Bytes

  /** A session as the registry sees it; its stream names never change. */
  datatype SessionRef = SessionRef(id: SessionId, names: seq<Name>)

  datatype Registry = Registry(
    sessions: map<SessionId, SessionRef>,
    index: map<Name, SessionRef>,
    handlers: map<Name, Handler>,
    closed: bool,
    hubMode: bool,
    clientSide: bool
  )

  datatype LookupError = SessionClosed | SessionNotFound | HandlerNotFound

  datatype Lookup<+T> = Found(value: T) | Missing(err: LookupError)

  function WithNames(index: map<Name, SessionRef>, names: seq<Name>, s: SessionRef): map<Name, SessionRef> {
    index + (map n | n in names :: s)
  }

  function WithoutNames(index: map<Name, SessionRef>, names: seq<Name>): map<Name, SessionRef> {
    index - (set n | n in names)
  }

  lemma OneMoreName(names: seq<Name>, i: nat)
    requires i < |names|
    ensures forall n :: n in names[..i + 1] <==> n in names[..i] || n == names[i]
  {
    assert names[..i + 1] == names[..i] + [names[i]];
  }

  lemma WithOneMore(index: map<Name, SessionRef>, names: seq<Name>, i: nat, s: SessionRef)
    requires i < |names|
    ensures WithNames(index, names[..i + 1], s) == WithNames(index, names[..i], s)[names[i] := s]
  {
    OneMoreName(names, i);
  }

  lemma WithoutOneMore(index: map<Name, SessionRef>, names: seq<Name>, i: nat)
    requires i < |names|
    ensures WithoutNames(index, names[..i + 1]) == WithoutNames(index, names[..i]) - {names[i]}
  {
    OneMoreName(names, i);
  }

  lemma NoNames(index: map<Name, SessionRef>, s: SessionRef)
    ensures WithNames(index, [], s) == index && WithoutNames(index, []) == index
  {
  }

  lemma NamesEntered(index: map<Name, SessionRef>, names: seq<Name>, s: SessionRef)
    ensures forall n :: n in WithNames(index, names, s) <==> n in index || n in names
    ensures forall n :: n in WithNames(index, names, s) ==>
      WithNames(index, names, s)[n] == if n in names then s else index[n]
  {
  }

  lemma NamesRemoved(index: map<Name, SessionRef>, names: seq<Name>)
    ensures forall n :: n in WithoutNames(index, names) <==> n in index && n !in names
    ensures forall n :: n in WithoutNames(index, names) ==> WithoutNames(index, names)[n] == index[n]
  {
  }

  /** registerSession: a later session takes over a name that an earlier one owns too. */
  function Register(r: Registry, s: SessionRef): Registry {
    r.(sessions := r.sessions[s.id := s],
       index := if r.hubMode then WithNames(r.index, s.names, s) else r.index)
  }

  /** unregisterSession: the names go, whoever the index gives them to. */
  function Unregister(r: Registry, s: SessionRef): Registry {
    r.(sessions := r.sessions - {s.id},
       index := if r.hubMode then WithoutNames(r.index, s.names) else r.index)
  }

  function FindSession(r: Registry, name: Name): Lookup<SessionRef> {
    if |r.sessions| == 0 || r.closed then Missing(SessionClosed)
    else if name in r.index then Found(r.index[name])
    else Missing(SessionNotFound)
  }

  function FindHandler(r: Registry, name: Name): Lookup<Handler> {
    if name in r.handlers then Found(r.handlers[name]) else Missing(HandlerNotFound)
  }

  /** `s` is registered and owns the name. */
  predicate Owns(r: Registry, s: SessionRef, name: Name) {
    s.id in r.sessions && r.sessions[s.id] == s && name in s.names
  }

  /** Sessions sit under their own ids, and every index entry points to a registered owner of the name. */
  ghost predicate Sound(r: Registry) {
    && (forall id :: id in r.sessions ==> r.sessions[id].id == id)
    && (forall name :: name in r.index ==> Owns(r, r.index[name], name))
  }

  /** The index is the inverse of the sessions' names. */
  ghost predicate Exact(r: Registry) {
    && Sound(r)
    && (forall s, name :: Owns(r, s, name) ==> name in r.index && r.index[name] == s)
  }

  /** No registered session shares a name with `s`. */
  ghost predicate NamesFree(r: Registry, s: SessionRef) {
    forall other, name :: Owns(r, other, name) ==> name !in s.names
  }

  lemma RegisterSound(r: Registry, s: SessionRef)
    requires Sound(r) && s.id !in r.sessions
    ensures Sound(Register(r, s))
  {
  }

  lemma UnregisterSound(r: Registry, s: SessionRef)
    requires Sound(r) && r.hubMode
    requires s.id in r.sessions && r.sessions[s.id] == s
    ensures Sound(Unregister(r, s))
  {
  }

  lemma OwnersAfterRegister(r: Registry, s: SessionRef)
    requires s.id !in r.sessions
    ensures forall o, name :: Owns(Register(r, s), o, name) <==> Owns(r, o, name) || (o == s && name in s.names)
  {
  }

  /** Exactly when the index stays the inverse: if and only if the newcomer's names are free. */
  lemma RegisterExact(r: Registry, s: SessionRef)
    requires r.hubMode && Exact(r) && s.id !in r.sessions
    ensures Exact(Register(r, s)) <==> NamesFree(r, s)
  {
    var t := Register(r, s);
    RegisterSound(r, s);
    OwnersAfterRegister(r, s);
    if NamesFree(r, s) {
      forall o, name | Owns(t, o, name)
        ensures name in t.index && t.index[name] == o
      {
        if o != s {
          assert Owns(r, o, name);
        }
      }
    } else {
      var other, name :| Owns(r, other, name) && name in s.names;
      assert Owns(t, other, name) && t.index[name] == s != other;
    }
  }

  lemma UnregisterExact(r: Registry, s: SessionRef)
    requires r.hubMode && Exact(r)
    requires s.id in r.sessions && r.sessions[s.id] == s
    ensures Exact(Unregister(r, s))
  {
    var t := Unregister(r, s);
    UnregisterSound(r, s);
    forall o, name | Owns(t, o, name)
      ensures name in t.index && t.index[name] == o
    {
      assert Owns(r, o, name);
      if name in s.names {
        assert Owns(r, s, name);
      }
    }
  }

  /** Exactly when a registered session can no longer be found by a name of its own after another one left. */
  lemma LeavingLosesExactly(r: Registry, s: SessionRef, other: SessionRef, name: Name)
    requires Sound(r) && r.hubMode && !r.closed && s.id in r.sessions && r.sessions[s.id] == s
    requires Owns(r, other, name) && other.id != s.id && name in r.index
    ensures FindSession(Unregister(r, s), name) == Missing(SessionNotFound) <==> name in s.names
  {
    assert other.id in Unregister(r, s).sessions;
  }

  datatype Op = Join(s: SessionRef) | Leave(s: SessionRef)

  function Apply(r: Registry, op: Op): Registry {
    match op
    case Join(s) => Register(r, s)
    case Leave(s) => Unregister(r, s)
  }

  function ApplyAll(r: Registry, ops: seq<Op>): Registry
    decreases |ops|
  {
    if ops == [] then r else ApplyAll(Apply(r, ops[0]), ops[1..])
  }

  /** Session ids are distinct, and only registered sessions leave. */
  ghost predicate Legal(r: Registry, ops: seq<Op>)
    decreases |ops|
  {
    ops != [] ==>
      && (match ops[0]
          case Join(s) => s.id !in r.sessions
          case Leave(s) => s.id in r.sessions && r.sessions[s.id] == s)
      && Legal(Apply(r, ops[0]), ops[1..])
  }

  /** And every session that joins brings names that nobody registered has. */
  ghost predicate DisjointJoins(r: Registry, ops: seq<Op>)
    decreases |ops|
  {
    ops != [] ==>
      && (ops[0].Join? ==> NamesFree(r, ops[0].s))
      && DisjointJoins(Apply(r, ops[0]), ops[1..])
  }

  /**
   The hub's index in every run: each entry points to a registered session that owns the name; and
   if names are disjoint the index is exactly the inverse of the sessions' names.
   */
  lemma {:induction false} IndexAgrees(r: Registry, ops: seq<Op>)
    requires r.hubMode && Sound(r) && Legal(r, ops)
    ensures Sound(ApplyAll(r, ops)) && ApplyAll(r, ops).hubMode
    ensures Exact(r) && DisjointJoins(r, ops) ==> Exact(ApplyAll(r, ops))
    decreases |ops|
  {
    hide Sound, Exact, NamesFree;
    if ops == [] {
    } else {
      match ops[0] {
        case Join(s) =>
          RegisterSound(r, s);
          if Exact(r) {
            RegisterExact(r, s);
          }
        case Leave(s) =>
          UnregisterSound(r, s);
          if Exact(r) {
            UnregisterExact(r, s);
          }
      }
      IndexAgrees(Apply(r, ops[0]), ops[1..]);
    }
  }

  /** On an open wire with sessions, an exact index answers as a search over all sessions would. */
  lemma FindSessionIsSearch(r: Registry, name: Name, s: SessionRef)
    requires Exact(r) && |r.sessions| > 0 && !r.closed
    ensures FindSession(r, name) == Found(s) <==> Owns(r, s, name)
    ensures FindSession(r, name) == Missing(SessionNotFound) <==> forall o :: !Owns(r, o, name)
  {
  }

  /** With a shared name, the first owner's leaving makes the second one unreachable. */
  lemma SharedNameLosesOwner(name: Name)
    ensures
      var a, b := SessionRef(1, [name]), SessionRef(2, [name]);
      var r := ApplyAll(Registry(map[], map[], map[], false, true, false), [Join(a), Join(b), Leave(a)]);
      Owns(r, b, name) && FindSession(r, name) == Missing(SessionNotFound)
  {
    var a, b := SessionRef(1, [name]), SessionRef(2, [name]);
    var r0 := Registry(map[], map[], map[], false, true, false);
    var ops := [Join(a), Join(b), Leave(a)];
    var r1 := Register(r0, a);
    var r2 := Register(r1, b);
    var r3 := Unregister(r2, a);
    assert ops[1..] == [Join(b), Leave(a)] && ops[1..][1..] == [Leave(a)] && ops[1..][1..][1..] == [];
    assert ApplyAll(r0, ops) == ApplyAll(r1, ops[1..]) == ApplyAll(r2, ops[1..][1..]);
    assert ApplyAll(r2, [Leave(a)]) == ApplyAll(r3, [Leave(a)][1..]) == r3;
    assert b.id in r3.sessions;
  }

  /** validateStreamName: None admits the name. */
  function Validate(r: Registry, name: Name): Option<LookupError> {
    if r.hubMode && !r.clientSide then
      match FindSession(r, name)
      case Found(_) => None
      case Missing(err) => if err == SessionNotFound then HandlerError(r, name) else Some(err)
    else HandlerError(r, name)
  }

  function HandlerError(r: Registry, name: Name): Option<LookupError> {
    match FindHandler(r, name)
    case Found(_) => None
    case Missing(err) => Some(err)
  }

  /**
   How a name is refused, exactly: on a hub that is closed or has no session, because the session is
   closed; where neither a session nor a handler has the name, because no handler was found; and never
   because no session was found.
   */
  lemma RefusedNames(r: Registry, name: Name)
    ensures Validate(r, name) == Some(SessionClosed) <==> r.hubMode && !r.clientSide && (r.closed || r.sessions == map[])
    ensures Validate(r, name) == Some(HandlerNotFound) <==>
      && !(r.hubMode && !r.clientSide && (r.closed || r.sessions == map[] || name in r.index)) && name !in r.handlers
    ensures Validate(r, name) != Some(SessionNotFound)
  {
  }

  /** Where dispatchStream takes an admitted stream. */
  datatype Route = ToSession(s: SessionRef) | ToHandler(h: Handler) | Unroutable(err: LookupError)

  function Serve(r: Registry, name: Name): Route {
    match FindHandler(r, name)
    case Found(h) => ToHandler(h)
    case Missing(err) => Unroutable(err)
  }

  function Dispatch(r: Registry, name: Name): Route {
    if r.hubMode && !r.clientSide then
      var hub := match FindSession(r, name) case Found(s) => ToSession(s) case Missing(err) => Unroutable(err);
      if hub == Unroutable(SessionNotFound) then Serve(r, name) else hub
    else Serve(r, name)
  }

  /** The registry has somewhere to take the name, said without the two procedures above. */
  ghost predicate Reachable(r: Registry, name: Name) {
    if r.hubMode && !r.clientSide then
      |r.sessions| > 0 && !r.closed && (name in r.index || name in r.handlers)
    else name in r.handlers
  }

  /**
   Admission agrees with routing, hub or not: a name is admitted exactly when dispatching it in the
   same state reaches a session or a handler, which is exactly when there is one; and a refusal has
   the same error. On a hub a session goes before a handler of the same name.
   */
  lemma AdmissionAgreesWithRouting(r: Registry, name: Name)
    ensures Validate(r, name) == None <==> !Dispatch(r, name).Unroutable?
    ensures Validate(r, name) == None <==> Reachable(r, name)
    ensures forall err :: Validate(r, name) == Some(err) <==> Dispatch(r, name) == Unroutable(err)
    ensures forall s :: Dispatch(r, name) == ToSession(s) <==>
      r.hubMode && !r.clientSide && FindSession(r, name) == Found(s)
    ensures forall h :: Dispatch(r, name) == ToHandler(h) <==>
      && Reachable(r, name) && name in r.handlers && r.handlers[name] == h
      && !(r.hubMode && !r.clientSide && name in r.index)
  {
  }

  class Wire {
    var sessions: map<SessionId, SessionRef>
    var streamIndex: map<Name, SessionRef>
    var handlers: map<Name, Handler>
    var closed: bool
    const hubMode: bool
    const clientSide: bool

    constructor (hubMode: bool, clientSide: bool)
      ensures View() == Registry(map[], map[], map[], false, hubMode, clientSide)
    {
      this.hubMode, this.clientSide := hubMode, clientSide;
      sessions, streamIndex, handlers, closed := map[], map[], map[], false;
    }

    function View(): Registry
      reads this
    {
      Registry(sessions, streamIndex, handlers, closed, hubMode, clientSide)
    }

    /** Stream: an existing handler of the name is replaced. */
    method Stream(name: Name, h: Handler)
      modifies `handlers
      ensures View() == old(View()).(handlers := old(handlers)[name := h])
    {
      handlers := handlers[name := h];
    }

    method RegisterSession(s: SessionRef)
      modifies this
      ensures View() == Register(old(View()), s)
      ensures sessions == old(sessions)[s.id := s] && (!hubMode ==> streamIndex == old(streamIndex))
      ensures hubMode ==> forall n :: n in streamIndex <==> n in old(streamIndex) || n in s.names
      ensures hubMode ==> forall n :: n in streamIndex ==>
        streamIndex[n] == if n in s.names then s else old(streamIndex)[n]
    {
      hide WithNames, WithoutNames;
      NoNames(streamIndex, s);
      NamesEntered(streamIndex, s.names, s);
      sessions := sessions[s.id := s];
      if hubMode {
        var i := 0;
        while i < |s.names|
          invariant i <= |s.names|
          invariant sessions == old(sessions)[s.id := s] && handlers == old(handlers) && closed == old(closed)
          invariant streamIndex == WithNames(old(streamIndex), s.names[..i], s)
        {
          WithOneMore(old(streamIndex), s.names, i, s);
          streamIndex := streamIndex[s.names[i] := s];
          i := i + 1;
        }
        assert s.names[..i] == s.names;
      }
    }

    /** unregisterSession: the answer says whether a client must now close its connection. */
    method UnregisterSession(s: SessionRef) returns (closeWire: bool)
      modifies this
      ensures View() == Unregister(old(View()), s)
      ensures sessions == old(sessions) - {s.id} && (!hubMode ==> streamIndex == old(streamIndex))
      ensures hubMode ==> forall n :: n in streamIndex <==> n in old(streamIndex) && n !in s.names
      ensures hubMode ==> forall n :: n in streamIndex ==> streamIndex[n] == old(streamIndex)[n]
      ensures closeWire <==> clientSide && |sessions| == 0 && !closed
    {
      hide WithNames, WithoutNames;
      NoNames(streamIndex, s);
      NamesRemoved(streamIndex, s.names);
      if hubMode {
        var i := 0;
        while i < |s.names|
          invariant i <= |s.names|
          invariant sessions == old(sessions) && handlers == old(handlers) && closed == old(closed)
          invariant streamIndex == WithoutNames(old(streamIndex), s.names[..i])
        {
          WithoutOneMore(old(streamIndex), s.names, i);
          streamIndex := streamIndex - {s.names[i]};
          i := i + 1;
        }
        assert s.names[..i] == s.names;
      }
      sessions := sessions - {s.id};
      closeWire := clientSide && |sessions| == 0 && !closed;
    }
  }
}
