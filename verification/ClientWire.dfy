/**
 wirenet.go on the client side: the connect loop, one shutdown goroutine a connection, the session of
 each connection with all its Close callers, and any number of Wire.Close callers, as interleaved
 atomic steps. Connections are numbered from 0; connection `e` has channel `e + 1`, channel 0 is the
 one newWire makes, which nobody receives from.
 */
module ClientWire {
  import S = SessionClose

  /** acceptClient. */
  datatype Loop =
    | Top         // before the check of the attempts and the closed flag
    | Passed      // past the check
    | Dialing     // conn flag reset
    | Opening     // connected, conn flag set; yamux and session handshake
    | Waiting     // on waitCh
    | Returned

  /** Who asks a shutdown goroutine to stop: a Wire.Close caller, or unregisterSession of a session. */
  datatype Requester = User(u: nat) | SessionOf(x: nat)

  /** What unregisterSession does after it removed the session. */
  datatype Notice =
    | Quiet                // nothing removed yet
    | Deciding             // the map became empty; about to look at the closed flag
    | Declined             // no close() from here
    | Ready                // inside close()
    | Offering(ch: nat)    // offers its reply channel on channel ch
    | Awaiting             // taken
    | Answered

  /** wire.shutdown of one connection. */
  datatype Shut =
    | Listening
    | Taken(asker: Requester)
    | Closing(asker: Requester, todo: set<nat>)   // calls Close on the sessions of its snapshot
    | Signalled(asker: Requester)                 // has closed the connection and waitCh
    | Over(asker: Requester)

  /** A caller of Wire.Close. */
  datatype Closer = Fresh | NoConn | ConnSeen | OpenSeen | Marked | UserOffering(ch: nat) | UserAwaiting | Finished

  /** One connection with its session. */
  datatype Epoch = Epoch(sess: S.State, registered: bool, notice: Notice, shut: Shut, waitCloses: nat)

  const NEW_EPOCH := Epoch(S.INITIAL, false, Quiet, Listening, 0)

  datatype State = State(
    closed: bool,
    conn: bool,
    loop: Loop,
    sessions: set<nat>,
    epochs: seq<Epoch>,
    users: map<nat, Closer>
  )

  const INITIAL := State(false, false, Top, {}, [], map[])

  /** The caller id, in every session, of the wire's own sess.Close. */
  const WIRE_CALLER: S.CallerId := 0

  datatype Action =
    | LoopCheck(exhausted: bool)
    | LoopReset
    | DialFails(fatal: bool)
    | DialSucceeds
    | OpenFails
    | Install
    | Wake
    | RegisterSession(e: nat)
    | SessionStep(e: nat, a: S.Action)
    | Decide(e: nat)
    | Offer(e: nat)
    | TakeFromSession(e: nat, x: nat)
    | TakeFromUser(e: nat, u: nat)
    | Snapshot(e: nat)
    | CallClose(e: nat, x: nat)
    | SessionReturned(e: nat, x: nat)
    | Signal(e: nat)
    | Reply(e: nat)
    | UserCheckConn(u: nat)
    | UserFlagOnly(u: nat)
    | UserCheckClosed(u: nat)
    | UserMark(u: nat)
    | UserOffer(u: nat)

  function UserAt(s: State, u: nat): Closer {
    if u in s.users then s.users[u] else Fresh
  }

  predicate Done(s: State, x: nat) {
    x < |s.epochs| &&
    var p := S.CallerAt(s.epochs[x].sess, WIRE_CALLER); p.Finished? || p.Rejected?
  }

  /**
   Only registered sessions can be closed, and the hook waits until unregisterSession returned. The
   wire's own caller enters a session by CallClose only.
   */
  predicate SessionMay(ep: Epoch, a: S.Action) {
    && S.Enabled(ep.sess, a)
    && a != S.Check(WIRE_CALLER)
    && (a.Check? ==> ep.registered)
    && (a.LaunchHook? ==> ep.notice.Declined? || ep.notice.Answered?)
  }

  predicate Enabled(s: State, a: Action) {
    match a
    case LoopCheck(_) => s.loop == Top
    case LoopReset => s.loop == Passed
    case DialFails(_) => s.loop == Dialing
    case DialSucceeds => s.loop == Dialing
    case OpenFails => s.loop == Opening
    case Install => s.loop == Opening
    case Wake => s.loop == Waiting && |s.epochs| > 0 && s.epochs[|s.epochs| - 1].waitCloses > 0
    case RegisterSession(e) => e < |s.epochs| && !s.epochs[e].registered
    case SessionStep(e, a) => e < |s.epochs| && SessionMay(s.epochs[e], a)
    case Decide(e) => e < |s.epochs| && s.epochs[e].notice == Deciding
    case Offer(e) => e < |s.epochs| && s.epochs[e].notice == Ready
    case TakeFromSession(e, x) =>
      e < |s.epochs| && x < |s.epochs| && s.epochs[e].shut == Listening && s.epochs[x].notice == Offering(e + 1)
    case TakeFromUser(e, u) => e < |s.epochs| && s.epochs[e].shut == Listening && UserAt(s, u) == UserOffering(e + 1)
    case Snapshot(e) => e < |s.epochs| && s.epochs[e].shut.Taken?
    case CallClose(e, x) =>
      && e < |s.epochs| && x < |s.epochs| && s.epochs[e].shut.Closing? && x in s.epochs[e].shut.todo
      && S.Enabled(s.epochs[x].sess, S.Check(WIRE_CALLER))
    case SessionReturned(e, x) => e < |s.epochs| && s.epochs[e].shut.Closing? && x in s.epochs[e].shut.todo && Done(s, x)
    case Signal(e) => e < |s.epochs| && s.epochs[e].shut.Closing? && s.epochs[e].shut.todo == {}
    case Reply(e) => e < |s.epochs| && s.epochs[e].shut.Signalled? && Expects(s, s.epochs[e].shut.asker)
    case UserCheckConn(u) => UserAt(s, u) == Fresh
    case UserFlagOnly(u) => UserAt(s, u) == NoConn
    case UserCheckClosed(u) => UserAt(s, u) == ConnSeen
    case UserMark(u) => UserAt(s, u) == OpenSeen
    case UserOffer(u) => UserAt(s, u) == Marked
  }

  predicate Expects(s: State, r: Requester) {
    match r
    case User(u) => UserAt(s, u) == UserAwaiting
    case SessionOf(x) => x < |s.epochs| && s.epochs[x].notice == Awaiting
  }

  function WithEpoch(s: State, e: nat, ep: Epoch): State
    requires e < |s.epochs|
  {
    s.(epochs := s.epochs[e := ep])
  }

  function WithShut(s: State, e: nat, shut: Shut): State
    requires e < |s.epochs|
  {
    WithEpoch(s, e, s.epochs[e].(shut := shut))
  }

  function WithNotice(s: State, e: nat, notice: Notice): State
    requires e < |s.epochs|
  {
    WithEpoch(s, e, s.epochs[e].(notice := notice))
  }

  function WithUser(s: State, u: nat, p: Closer): State {
    s.(users := s.users[u := p])
  }

  function Step(s: State, a: Action): State
    requires Enabled(s, a)
  {
    match a
    case LoopCheck(exhausted) => s.(loop := if exhausted || s.closed then Returned else Passed)
    case LoopReset => s.(loop := Dialing, conn := false)
    case DialFails(fatal) => s.(loop := if fatal then Returned else Top)
    case DialSucceeds => s.(loop := Opening, conn := true)
    case OpenFails => s.(loop := Returned, conn := false)
    case Install => s.(loop := Waiting, epochs := s.epochs + [NEW_EPOCH])
    case Wake => s.(loop := Top)
    case RegisterSession(e) => WithEpoch(s, e, s.epochs[e].(registered := true)).(sessions := s.sessions + {e})
    case SessionStep(e, a) => AfterSessionStep(s, e, a)
    case Decide(e) => WithNotice(s, e, if s.closed then Declined else Ready)
    case Offer(e) => WithNotice(s, e, Offering(|s.epochs|))
    case TakeFromSession(e, x) => WithNotice(WithShut(s, e, Taken(SessionOf(x))), x, Awaiting)
    case TakeFromUser(e, u) => WithUser(WithShut(s, e, Taken(User(u))), u, UserAwaiting)
    case Snapshot(e) => WithShut(s, e, Closing(s.epochs[e].shut.asker, s.sessions))
    case CallClose(_, x) =>
      WithEpoch(s, x, s.epochs[x].(sess := S.Step(s.epochs[x].sess, S.Check(WIRE_CALLER))))
    case SessionReturned(e, x) => WithShut(s, e, Closing(s.epochs[e].shut.asker, s.epochs[e].shut.todo - {x}))
    case Signal(e) => AfterSignal(s, e)
    case Reply(e) =>
      var t := WithShut(s, e, Over(s.epochs[e].shut.asker));
      if s.epochs[e].shut.asker.User? then WithUser(t, s.epochs[e].shut.asker.u, Finished)
      else WithNotice(t, s.epochs[e].shut.asker.x, Answered)
    case UserCheckConn(u) => WithUser(s, u, if s.conn then ConnSeen else NoConn)
    case UserFlagOnly(u) => WithUser(s.(closed := true), u, Finished)
    case UserCheckClosed(u) => WithUser(s, u, if s.closed then Finished else OpenSeen)
    case UserMark(u) => WithUser(s.(closed := true), u, Marked)
    case UserOffer(u) => WithUser(s, u, UserOffering(|s.epochs|))
  }

  function AfterSessionStep(s: State, e: nat, a: S.Action): State
    requires e < |s.epochs| && SessionMay(s.epochs[e], a)
  {
    var ep := s.epochs[e].(sess := S.Step(s.epochs[e].sess, a));
    if a.UnregisterSession? then
      var left := s.sessions - {e};
      WithEpoch(s, e, ep.(notice := if left == {} then Deciding else Declined)).(sessions := left)
    else WithEpoch(s, e, ep)
  }

  /** The goroutine closes its own connection, but whatever waitCh the wire has by now. */
  function AfterSignal(s: State, e: nat): State
    requires e < |s.epochs| && s.epochs[e].shut.Closing?
  {
    var t := WithEpoch(s, e, s.epochs[e].(shut := Signalled(s.epochs[e].shut.asker),
                                          sess := S.Step(s.epochs[e].sess, S.ConnLost)));
    var last := |s.epochs| - 1;
    WithEpoch(t, last, t.epochs[last].(waitCloses := t.epochs[last].waitCloses + 1))
  }

  /** The facts about one connection that every step keeps. */
  ghost predicate EpochInv(ep: Epoch, e: nat, inMap: bool, closed: bool) {
    && S.Inv(ep.sess)
    && (!ep.registered ==> ep.sess.callers == map[])
    && (inMap <==> ep.registered && ep.sess.unregisters == 0)
    && (ep.notice == Quiet <==> ep.sess.unregisters == 0)
    && (ep.notice.Offering? ==> ep.notice.ch == e + 1)
    && (!ep.shut.Listening? ==> RequesterInv(ep, e, closed))
    && (ep.notice.Awaiting? || ep.notice.Answered? ==> !ep.shut.Listening? && ep.shut.asker == SessionOf(e))
    && (ep.notice.Answered? <==> ep.shut.Over? && ep.shut.asker.SessionOf?)
    && PassInv(ep, e)
    && ep.waitCloses == (if ep.shut.Signalled? || ep.shut.Over? then 1 else 0)
  }

  /** A goroutine that was asked was asked by a user, after the flag was set, or by its own session. */
  ghost predicate RequesterInv(ep: Epoch, e: nat, closed: bool)
    requires !ep.shut.Listening?
  {
    match ep.shut.asker
    case User(_) => closed
    case SessionOf(x) => x == e && (ep.notice == Awaiting || ep.notice == Answered)
  }

  /**
   The pass over the sessions: the wire's caller stays outside before it, and it has at most its own
   connection's session to close, and that only if a user asked.
   */
  ghost predicate PassInv(ep: Epoch, e: nat) {
    match ep.shut
    case Listening => S.CallerAt(ep.sess, WIRE_CALLER) == S.Outside
    case Taken(_) => S.CallerAt(ep.sess, WIRE_CALLER) == S.Outside
    case Closing(asker, todo) =>
      && todo <= {e}
      && (e in todo ==> asker.User? && ep.registered && (ep.notice.Quiet? || ep.notice.Deciding? || ep.notice.Declined?))
    case _ => true
  }

  /** A connection that is over because its session ended and was taken off the map. */
  ghost predicate Past(ep: Epoch, e: nat) {
    && ep.registered && ep.sess.unregisters == 1
    && (ep.shut.Signalled? || ep.shut.Over?) && ep.shut.asker == SessionOf(e)
  }

  ghost predicate LoopInv(s: State) {
    var n := |s.epochs|;
    match s.loop
    case Top => n > 0 ==> s.epochs[n - 1].waitCloses == 1
    case Passed => n > 0 ==> Past(s.epochs[n - 1], n - 1)
    case Dialing => n > 0 ==> Past(s.epochs[n - 1], n - 1)
    case Opening => s.conn && (n > 0 ==> Past(s.epochs[n - 1], n - 1))
    case Waiting => s.conn && n > 0
    case Returned => n > 0 ==> s.epochs[n - 1].waitCloses == 1
  }

  ghost predicate UsersInv(s: State) {
    forall u :: UserAt(s, u).Marked? || UserAt(s, u).UserOffering? || UserAt(s, u).UserAwaiting? ==> s.closed
  }

  ghost predicate Inv(s: State) {
    && (forall e :: 0 <= e < |s.epochs| ==> EpochInv(s.epochs[e], e, e in s.sessions, s.closed))
    && (forall e :: 0 <= e < |s.epochs| - 1 ==> Past(s.epochs[e], e))
    && (forall e :: e in s.sessions ==> e < |s.epochs|)
    && LoopInv(s)
    && UsersInv(s)
  }

  lemma InitialInv()
    ensures Inv(INITIAL)
  {
  }

  /** One connection changes, and the map at most at that connection's session. */
  lemma EpochChange(s: State, e: nat, ep: Epoch, sessions: set<nat>)
    requires Inv(s) && e < |s.epochs|
    requires EpochInv(ep, e, e in sessions, s.closed)
    requires forall x :: x != e ==> (x in sessions <==> x in s.sessions)
    requires Past(s.epochs[e], e) ==> Past(ep, e)
    requires ep.waitCloses == s.epochs[e].waitCloses || s.loop == Waiting
    ensures Inv(WithEpoch(s, e, ep).(sessions := sessions))
  {
    hide EpochInv, Past;
    var t := WithEpoch(s, e, ep).(sessions := sessions);
    SameUsers(s, t);
    assert forall x :: 0 <= x < |s.epochs| && x != e ==> t.epochs[x] == s.epochs[x];
  }

  lemma SameUsers(s: State, t: State)
    requires UsersInv(s) && t.users == s.users && t.closed == s.closed
    ensures UsersInv(t)
  {
    assert forall u :: UserAt(t, u) == UserAt(s, u);
  }

  /** What the invariant says of one connection. */
  lemma Known(s: State, e: nat)
    requires Inv(s) && e < |s.epochs|
    ensures EpochInv(s.epochs[e], e, e in s.sessions, s.closed)
    ensures e < |s.epochs| - 1 ==> Past(s.epochs[e], e)
    ensures UsersInv(s) && LoopInv(s)
  {
  }

  /** A session that was taken off the map had been put on it. */
  lemma UnregisteredWasRegistered(ep: Epoch, e: nat, inMap: bool, closed: bool)
    requires EpochInv(ep, e, inMap, closed)
    ensures ep.sess.unregisters <= 1
    ensures ep.sess.unregisters == 1 ==> ep.registered && !inMap
  {
  }

  /** A connection whose waitCh is closed while the wire is open ended by its session. */
  lemma ClosedWaitIsPast(ep: Epoch, e: nat, inMap: bool)
    requires EpochInv(ep, e, inMap, false) && ep.waitCloses == 1
    ensures Past(ep, e)
  {
    UnregisteredWasRegistered(ep, e, inMap, false);
  }

  lemma PastClosedWait(ep: Epoch, e: nat, inMap: bool, closed: bool)
    requires EpochInv(ep, e, inMap, closed) && Past(ep, e)
    ensures ep.waitCloses == 1
  {
  }

  lemma LoopStepInv(s: State, a: Action)
    requires Inv(s) && Enabled(s, a)
    requires a.LoopCheck? || a.LoopReset? || a.DialFails? || a.DialSucceeds? || a.OpenFails? || a.Wake?
    ensures Inv(Step(s, a))
  {
    hide EpochInv, Past;
    SameUsers(s, Step(s, a));
    var n := |s.epochs|;
    if n > 0 {
      Known(s, n - 1);
      if a.LoopCheck? && !s.closed {
        ClosedWaitIsPast(s.epochs[n - 1], n - 1, n - 1 in s.sessions);
      }
      if a.DialFails? || a.OpenFails? {
        PastClosedWait(s.epochs[n - 1], n - 1, n - 1 in s.sessions, s.closed);
      }
      if a.Wake? {
        WaitAtMostOnce(s.epochs[n - 1], n - 1, n - 1 in s.sessions, s.closed);
      }
    }
  }

  lemma WaitAtMostOnce(ep: Epoch, e: nat, inMap: bool, closed: bool)
    requires EpochInv(ep, e, inMap, closed)
    ensures ep.waitCloses <= 1
  {
  }

  lemma NewEpochInv(e: nat, closed: bool)
    ensures EpochInv(NEW_EPOCH, e, false, closed)
  {
    S.InitialInv();
  }

  lemma InstallInv(s: State)
    requires Inv(s) && s.loop == Opening
    ensures Inv(Step(s, Install))
  {
    hide EpochInv, Past;
    var n, t := |s.epochs|, Step(s, Install);
    SameUsers(s, t);
    NewEpochInv(n, s.closed);
    assert n !in s.sessions;
    assert forall e :: 0 <= e < n ==> t.epochs[e] == s.epochs[e];
  }

  lemma SessionStepInv(s: State, e: nat, a: S.Action)
    requires Inv(s) && Enabled(s, SessionStep(e, a))
    ensures Inv(Step(s, SessionStep(e, a)))
  {
    hide Inv, S.Step, S.Inv, S.Enabled, EpochInv, Past;
    var ep := s.epochs[e];
    Known(s, e);
    if a.UnregisterSession? {
      var left := s.sessions - {e};
      RemovalInv(ep, e, a, e in s.sessions, s.closed, if left == {} then Deciding else Declined);
      EpochChange(s, e, ep.(sess := S.Step(ep.sess, a), notice := if left == {} then Deciding else Declined), left);
    } else {
      InnerStepInv(ep, e, a, e in s.sessions, s.closed);
      EpochChange(s, e, ep.(sess := S.Step(ep.sess, a)), s.sessions);
      SameSessions(s, e, ep.(sess := S.Step(ep.sess, a)));
    }
  }

  lemma SameSessions(s: State, e: nat, ep: Epoch)
    requires e < |s.epochs|
    ensures WithEpoch(s, e, ep).(sessions := s.sessions) == WithEpoch(s, e, ep)
  {
  }

  lemma InnerStepInv(ep: Epoch, e: nat, a: S.Action, inMap: bool, closed: bool)
    requires EpochInv(ep, e, inMap, closed) && SessionMay(ep, a) && !a.UnregisterSession?
    ensures EpochInv(ep.(sess := S.Step(ep.sess, a)), e, inMap, closed)
    ensures Past(ep, e) ==> Past(ep.(sess := S.Step(ep.sess, a)), e)
  {
    S.StepKeepsInv(ep.sess, a);
    CallersStayEmpty(ep, a);
    hide S.Inv, S.Step, S.Enabled;
  }

  lemma RemovalInv(ep: Epoch, e: nat, a: S.Action, inMap: bool, closed: bool, notice: Notice)
    requires EpochInv(ep, e, inMap, closed) && SessionMay(ep, a) && a.UnregisterSession?
    requires notice == Deciding || notice == Declined
    ensures EpochInv(ep.(sess := S.Step(ep.sess, a), notice := notice), e, false, closed)
    ensures !Past(ep, e)
  {
    S.StepKeepsInv(ep.sess, a);
    CallersStayEmpty(ep, a);
    var ep' := ep.(sess := S.Step(ep.sess, a));
    assert ep'.sess.unregisters <= 1;
    hide S.Inv, S.Step, S.Enabled;
  }

  lemma CallersStayEmpty(ep: Epoch, a: S.Action)
    requires SessionMay(ep, a) && S.Inv(ep.sess)
    requires !ep.registered ==> ep.sess.callers == map[]
    ensures !ep.registered ==> S.Step(ep.sess, a).callers == map[]
    ensures a.UnregisterSession? ==> ep.registered
    ensures S.Step(ep.sess, a).unregisters == ep.sess.unregisters + if a.UnregisterSession? then 1 else 0
  {
    if a.Answer? {
      assert ep.sess.worker.client in ep.sess.callers;
    }
  }

  /** A goroutine that still works for a connection works for the latest one. */
  lemma WorkingIsLast(s: State, e: nat)
    requires Inv(s) && e < |s.epochs|
    requires !s.epochs[e].shut.Signalled? && !s.epochs[e].shut.Over?
    ensures e == |s.epochs| - 1 && s.epochs[e].waitCloses == 0
    ensures s.loop == Waiting
  {
    hide Inv;
    Known(s, e);
  }

  lemma SignalInv(s: State, e: nat)
    requires Inv(s) && Enabled(s, Signal(e))
    ensures Inv(Step(s, Signal(e)))
  {
    hide Inv, EpochInv, Past, S.Step, S.Inv;
    WorkingIsLast(s, e);
    Known(s, e);
    var ep := s.epochs[e];
    var ep' := ep.(shut := Signalled(ep.shut.asker), sess := S.Step(ep.sess, S.ConnLost), waitCloses := 1);
    SignalledInv(ep, e, e in s.sessions, s.closed);
    EpochChange(s, e, ep', s.sessions);
    assert Step(s, Signal(e)) == WithEpoch(s, e, ep').(sessions := s.sessions);
  }

  lemma SignalledInv(ep: Epoch, e: nat, inMap: bool, closed: bool)
    requires EpochInv(ep, e, inMap, closed) && ep.shut.Closing? && ep.waitCloses == 0
    requires S.Enabled(ep.sess, S.ConnLost)
    ensures EpochInv(ep.(shut := Signalled(ep.shut.asker), sess := S.Step(ep.sess, S.ConnLost), waitCloses := 1),
                     e, inMap, closed)
    ensures !Past(ep, e)
  {
    S.StepKeepsInv(ep.sess, S.ConnLost);
    CallersStayEmpty(ep, S.ConnLost);
    hide S.Inv, S.Step, S.Enabled;
  }

  /** The steps of a shutdown goroutine before its last two, and of unregisterSession. */
  lemma WorkStepInv(s: State, a: Action)
    requires Inv(s) && Enabled(s, a)
    requires a.RegisterSession? || a.Decide? || a.Offer? || a.Snapshot? || a.SessionReturned?
    ensures Inv(Step(s, a))
  {
    hide Inv, S.Inv;
    var ep := s.epochs[a.e];
    Known(s, a.e);
    match a
    case RegisterSession(e) =>
      RegisterFirst(ep, e, e in s.sessions, s.closed);
      EpochChange(s, e, ep.(registered := true), s.sessions + {e});
    case Decide(e) =>
      EpochChange(s, e, ep.(notice := if s.closed then Declined else Ready), s.sessions);
    case Offer(e) =>
      EpochChange(s, e, ep.(notice := Offering(|s.epochs|)), s.sessions);
    case Snapshot(e) =>
      WorkingIsLast(s, e);
      AtMostLast(s);
      SnapshotInv(ep, e, s.sessions, s.closed);
      EpochChange(s, e, ep.(shut := Closing(ep.shut.asker, s.sessions)), s.sessions);
    case SessionReturned(e, x) =>
      EpochChange(s, e, ep.(shut := Closing(ep.shut.asker, ep.shut.todo - {x})), s.sessions);
  }

  lemma AtMostLast(s: State)
    requires Inv(s)
    ensures forall e :: e in s.sessions ==> e == |s.epochs| - 1
    ensures |s.sessions| <= 1
  {
    hide S.Inv;
    forall e | e in s.sessions
      ensures e == |s.epochs| - 1
    {
      Known(s, e);
    }
    if s.sessions != {} {
      assert s.sessions == {|s.epochs| - 1};
    }
  }

  lemma SnapshotInv(ep: Epoch, e: nat, sessions: set<nat>, closed: bool)
    requires EpochInv(ep, e, e in sessions, closed) && ep.shut.Taken? && sessions <= {e}
    ensures EpochInv(ep.(shut := Closing(ep.shut.asker, sessions)), e, e in sessions, closed)
  {
    hide S.Inv;
  }

  /** The wire's own caller enters the session of its own connection. */
  lemma CallCloseInv(s: State, e: nat, x: nat)
    requires Inv(s) && Enabled(s, CallClose(e, x))
    ensures x == e && Inv(Step(s, CallClose(e, x)))
  {
    hide Inv, S.Step, S.Inv, S.Enabled, EpochInv, Past;
    Known(s, e);
    PassStaysHome(s.epochs[e], e, e in s.sessions, s.closed);
    var ep' := s.epochs[e].(sess := S.Step(s.epochs[e].sess, S.Check(WIRE_CALLER)));
    CallInv(s.epochs[e], e, e in s.sessions, s.closed);
    EpochChange(s, e, ep', s.sessions);
    SameSessions(s, e, ep');
  }

  lemma PassStaysHome(ep: Epoch, e: nat, inMap: bool, closed: bool)
    requires EpochInv(ep, e, inMap, closed) && ep.shut.Closing?
    ensures ep.shut.todo <= {e} && (e in ep.shut.todo ==> ep.registered)
  {
    hide S.Inv;
  }

  lemma CallInv(ep: Epoch, e: nat, inMap: bool, closed: bool)
    requires EpochInv(ep, e, inMap, closed) && ep.shut.Closing? && ep.registered
    requires S.Enabled(ep.sess, S.Check(WIRE_CALLER))
    ensures EpochInv(ep.(sess := S.Step(ep.sess, S.Check(WIRE_CALLER))), e, inMap, closed)
    ensures !Past(ep, e)
  {
    S.StepKeepsInv(ep.sess, S.Check(WIRE_CALLER));
    hide S.Inv, S.Enabled;
  }


  lemma RegisterFirst(ep: Epoch, e: nat, inMap: bool, closed: bool)
    requires EpochInv(ep, e, inMap, closed) && !ep.registered
    ensures ep.sess.unregisters == 0
    ensures EpochInv(ep.(registered := true), e, true, closed)
  {
    UnregisteredWasRegistered(ep, e, inMap, closed);
  }

  lemma TakeInv(s: State, a: Action)
    requires Inv(s) && Enabled(s, a)
    requires a.TakeFromSession? || a.TakeFromUser?
    ensures Inv(Step(s, a))
  {
    hide Inv, S.Inv;
    WorkingIsLast(s, a.e);
    var ep := s.epochs[a.e];
    Known(s, a.e);
    match a
    case TakeFromSession(e, x) =>
      Known(s, x);
      assert x == e;
      var ep' := ep.(shut := Taken(SessionOf(x)), notice := Awaiting);
      EpochChange(s, e, ep', s.sessions);
      assert Step(s, a) == WithEpoch(s, e, ep').(sessions := s.sessions);
    case TakeFromUser(e, u) =>
      AskingIsClosed(s, u);
      var ep' := ep.(shut := Taken(User(u)));
      EpochChange(s, e, ep', s.sessions);
      UserMoves(WithEpoch(s, e, ep').(sessions := s.sessions), u, UserAwaiting);
      assert Step(s, a) == WithUser(WithEpoch(s, e, ep').(sessions := s.sessions), u, UserAwaiting);
  }

  lemma UserMoves(s: State, u: nat, p: Closer)
    requires Inv(s)
    requires p.Marked? || p.UserOffering? || p.UserAwaiting? ==> s.closed
    ensures Inv(WithUser(s, u, p))
  {
    hide EpochInv, Past;
    var t := WithUser(s, u, p);
    assert forall v :: UserAt(t, v) == if v == u then p else UserAt(s, v);
  }

  lemma ReplyInv(s: State, e: nat)
    requires Inv(s) && Enabled(s, Reply(e))
    ensures Inv(Step(s, Reply(e)))
  {
    hide Inv, S.Inv;
    var ep := s.epochs[e];
    Known(s, e);
    match ep.shut.asker
    case User(u) =>
      var ep' := ep.(shut := Over(User(u)));
      EpochChange(s, e, ep', s.sessions);
      UserMoves(WithEpoch(s, e, ep').(sessions := s.sessions), u, Finished);
      assert Step(s, Reply(e)) == WithUser(WithEpoch(s, e, ep').(sessions := s.sessions), u, Finished);
    case SessionOf(x) =>
      assert x == e;
      var ep' := ep.(shut := Over(SessionOf(x)), notice := Answered);
      EpochChange(s, e, ep', s.sessions);
      assert Step(s, Reply(e)) == WithEpoch(s, e, ep').(sessions := s.sessions);
  }

  lemma FlagInv(s: State)
    requires Inv(s)
    ensures Inv(s.(closed := true))
  {
  }

  lemma UserStepInv(s: State, a: Action)
    requires Inv(s) && Enabled(s, a)
    requires a.UserCheckConn? || a.UserFlagOnly? || a.UserCheckClosed? || a.UserMark? || a.UserOffer?
    ensures Inv(Step(s, a))
  {
    hide Inv;
    FlagInv(s);
    match a
    case UserCheckConn(u) => UserMoves(s, u, if s.conn then ConnSeen else NoConn);
    case UserFlagOnly(u) => UserMoves(s.(closed := true), u, Finished);
    case UserCheckClosed(u) => UserMoves(s, u, if s.closed then Finished else OpenSeen);
    case UserMark(u) => UserMoves(s.(closed := true), u, Marked);
    case UserOffer(u) =>
      AskingIsClosed(s, u);
      UserMoves(s, u, UserOffering(|s.epochs|));
  }

  lemma AskingIsClosed(s: State, u: nat)
    requires Inv(s) && (UserAt(s, u).Marked? || UserAt(s, u).UserOffering?)
    ensures s.closed
  {
  }

  lemma StepKeepsInv(s: State, a: Action)
    requires Inv(s) && Enabled(s, a)
    ensures Inv(Step(s, a))
  {
    hide Inv, Step;
    match a
    case Install => InstallInv(s);
    case SessionStep(e, b) => SessionStepInv(s, e, b);
    case Signal(e) => SignalInv(s, e);
    case Reply(e) => ReplyInv(s, e);
    case TakeFromSession(_, _) => TakeInv(s, a);
    case TakeFromUser(_, _) => TakeInv(s, a);
    case RegisterSession(_) => WorkStepInv(s, a);
    case Decide(_) => WorkStepInv(s, a);
    case Offer(_) => WorkStepInv(s, a);
    case Snapshot(_) => WorkStepInv(s, a);
    case CallClose(e, x) => CallCloseInv(s, e, x);
    case SessionReturned(_, _) => WorkStepInv(s, a);
    case UserCheckConn(_) => UserStepInv(s, a);
    case UserFlagOnly(_) => UserStepInv(s, a);
    case UserCheckClosed(_) => UserStepInv(s, a);
    case UserMark(_) => UserStepInv(s, a);
    case UserOffer(_) => UserStepInv(s, a);
    case _ => LoopStepInv(s, a);
  }

  /** The states along a sequence of enabled steps. */
  ghost predicate IsPath(states: seq<State>, actions: seq<Action>) {
    && |states| == |actions| + 1
    && forall i :: 0 <= i < |actions| ==> Enabled(states[i], actions[i]) && states[i + 1] == Step(states[i], actions[i])
  }

  /** An interleaving: a path from the initial state. */
  ghost predicate IsRun(states: seq<State>, actions: seq<Action>) {
    IsPath(states, actions) && states[0] == INITIAL
  }

  lemma {:induction false} PathKeepsInv(states: seq<State>, actions: seq<Action>, i: nat)
    requires IsPath(states, actions) && i < |states| && Inv(states[0])
    ensures Inv(states[i])
    decreases i
  {
    hide Inv, Step, Enabled;
    if i == 0 {
    } else {
      PathKeepsInv(states, actions, i - 1);
      StepKeepsInv(states[i - 1], actions[i - 1]);
    }
  }

  lemma RunKeepsInv(states: seq<State>, actions: seq<Action>, i: nat)
    requires IsRun(states, actions) && i < |states|
    ensures Inv(states[i])
  {
    InitialInv();
    PathKeepsInv(states, actions, i);
  }

  /**
   In every interleaving: at most one session is registered, the one of the latest connection; every
   dial starts with an empty session map, and with every earlier session registered once and
   unregistered once; and no connection's waitCh is closed twice.
   */
  lemma ReconnectIsClean(states: seq<State>, actions: seq<Action>, i: nat)
    requires IsRun(states, actions) && i < |states|
    ensures forall e :: e in states[i].sessions ==> e == |states[i].epochs| - 1
    ensures states[i].loop == Dialing ==> states[i].sessions == {}
    ensures states[i].loop == Dialing ==> forall e :: 0 <= e < |states[i].epochs| ==>
      states[i].epochs[e].registered && states[i].epochs[e].sess.unregisters == 1
    ensures forall e :: 0 <= e < |states[i].epochs| ==> states[i].epochs[e].waitCloses <= 1
    ensures |states[i].sessions| <= 1
  {
    hide Inv, Step, Enabled;
    RunKeepsInv(states, actions, i);
    var s := states[i];
    AtMostLast(s);
    if s.loop == Dialing {
      NoneLeft(s);
    }
    forall e | 0 <= e < |s.epochs|
      ensures s.epochs[e].waitCloses <= 1
    {
      Known(s, e);
      WaitAtMostOnce(s.epochs[e], e, e in s.sessions, s.closed);
    }
  }

  lemma NoneLeft(s: State)
    requires Inv(s) && s.loop == Dialing
    ensures s.sessions == {}
    ensures forall e :: 0 <= e < |s.epochs| ==> s.epochs[e].registered && s.epochs[e].sess.unregisters == 1
  {
    forall e | 0 <= e < |s.epochs|
      ensures Past(s.epochs[e], e) && e !in s.sessions
    {
      Known(s, e);
    }
    assert forall e :: e in s.sessions ==> e < |s.epochs|;
    assert s.sessions == {};
  }
}
