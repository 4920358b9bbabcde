/**
 wirenet.go on the client side, once more: when the connect loop, waiting on waitCh, a caller of
 Wire.Close, past setting the flag, and a caller of Session.Close, past taking its session off the map,
 can still return, and when they never will.
 */
module ConnectHang {
  import opened ClientWire
  import S = SessionClose

  /** The connect loop waits for connection `n - 1`, the latest. */
  predicate AtWait(s: State) {
    s.loop == Waiting && |s.epochs| > 0
  }

  function Last(s: State): Epoch
    requires |s.epochs| > 0
  {
    s.epochs[|s.epochs| - 1]
  }

  /**
   The closed flag is set, the loop waits, and nobody is left who could make the goroutine of the
   connection close waitCh: every later Wire.Close only sees the flag, and so does unregisterSession.
   */
  ghost predicate Stranded(s: State) {
    s.closed && LastIdle(s) && NobodyAsks(s)
  }

  ghost predicate LastIdle(s: State) {
    && AtWait(s) && Last(s).shut == Listening
    && (Last(s).notice == Quiet || Last(s).notice == Deciding || Last(s).notice == Declined)
  }

  ghost predicate NobodyAsks(s: State) {
    forall u :: UserAt(s, u) != OpenSeen && UserAt(s, u) != Marked && UserAt(s, u) != UserOffering(|s.epochs|)
  }

  /** The goroutine of the connection is in its pass over the sessions, and its Close of the one there is never returns. */
  ghost predicate PassStuck(s: State) {
    && AtWait(s) && Last(s).shut.Closing? && |s.epochs| - 1 in Last(s).shut.todo
    && S.Doomed(Last(s).sess, WIRE_CALLER)
  }

  ghost predicate Stuck(s: State) {
    Stranded(s) || PassStuck(s)
  }

  /** The Wire.Close caller that a step moves, if any. */
  function Moved(s: State, a: Action): set<nat>
    requires Enabled(s, a)
  {
    match a
    case TakeFromUser(_, u) => {u}
    case Reply(e) => if s.epochs[e].shut.asker.User? then {s.epochs[e].shut.asker.u} else {}
    case UserCheckConn(u) => {u}
    case UserFlagOnly(u) => {u}
    case UserCheckClosed(u) => {u}
    case UserMark(u) => {u}
    case UserOffer(u) => {u}
    case _ => {}
  }

  lemma OthersStay(s: State, a: Action)
    requires Enabled(s, a)
    ensures forall u :: u !in Moved(s, a) ==> UserAt(Step(s, a), u) == UserAt(s, u)
  {
    hide S.Step, S.Enabled;
  }

  lemma AskingStep(s: State, a: Action)
    requires s.closed && NobodyAsks(s) && LastIdle(s) && Enabled(s, a)
    ensures Step(s, a).closed && NobodyAsks(Step(s, a))
  {
    hide S.Step, S.Enabled;
    OthersStay(s, a);
  }

  lemma NothingToTake(s: State, a: Action)
    requires Inv(s) && Stranded(s) && Enabled(s, a)
    ensures !a.TakeFromSession? && !a.TakeFromUser?
  {
    hide Inv, S.Inv, S.Enabled, S.Step;
    match a
    case TakeFromSession(e, x) => LastTakesOwn(s, e, x);
    case TakeFromUser(e, _) => WorkingIsLast(s, e);
    case _ =>
  }

  /** While the latest goroutine listens, none is at work, and the loop cannot wake. */
  lemma NoGoroutineWorks(s: State, a: Action)
    requires Inv(s) && AtWait(s) && Last(s).shut.Listening? && Enabled(s, a)
    ensures !a.Snapshot? && !a.CallClose? && !a.SessionReturned? && !a.Signal? && !a.Wake?
    ensures a.Reply? ==> s.epochs[a.e].shut.asker != SessionOf(|s.epochs| - 1)
  {
    hide Inv, S.Inv, S.Enabled, S.Step, EpochInv;
    WorkingIsLast(s, |s.epochs| - 1);
    match a
    case Snapshot(e) => WorkingIsLast(s, e);
    case CallClose(e, _) => WorkingIsLast(s, e);
    case SessionReturned(e, _) => WorkingIsLast(s, e);
    case Signal(e) => WorkingIsLast(s, e);
    case Reply(e) => RepliesToOwn(s, e);
    case _ =>
  }

  lemma IdleStep(s: State, a: Action)
    requires Inv(s) && Stranded(s) && Enabled(s, a)
    ensures LastIdle(Step(s, a))
  {
    NothingToTake(s, a);
    NoGoroutineWorks(s, a);
    hide Inv, S.Step, S.Enabled, NobodyAsks;
    if a.SessionStep? || a.Decide? || a.Reply? {
      IdleNotice(s, a);
    }
  }

  lemma IdleNotice(s: State, a: Action)
    requires s.closed && LastIdle(s) && Enabled(s, a)
    requires a.SessionStep? || a.Decide? || (a.Reply? && s.epochs[a.e].shut.asker != SessionOf(|s.epochs| - 1))
    requires a.Reply? ==> a.e < |s.epochs| && s.epochs[a.e].shut.Signalled?
    ensures LastIdle(Step(s, a))
  {
    hide S.Step, S.Enabled;
  }

  lemma LastTakesOwn(s: State, e: nat, x: nat)
    requires Inv(s) && Enabled(s, TakeFromSession(e, x))
    ensures x == e == |s.epochs| - 1
  {
    hide Inv, S.Inv;
    WorkingIsLast(s, e);
    Known(s, x);
  }

  lemma RepliesToOwn(s: State, e: nat)
    requires Inv(s) && Enabled(s, Reply(e))
    ensures s.epochs[e].shut.asker.SessionOf? ==> s.epochs[e].shut.asker.x == e
  {
    hide Inv, S.Inv;
    Known(s, e);
  }

  lemma StrandedStep(s: State, a: Action)
    requires Inv(s) && Stranded(s) && Enabled(s, a)
    ensures Stranded(Step(s, a))
  {
    IdleStep(s, a);
    AskingStep(s, a);
    hide Enabled, Inv, LastIdle, NobodyAsks, Step;
  }

  /** No step of a goroutine is enabled while its pass is stuck. */
  lemma PassStandsStill(s: State, a: Action)
    requires Inv(s) && PassStuck(s) && Enabled(s, a)
    ensures !a.Wake? && !a.TakeFromSession? && !a.TakeFromUser? && !a.Snapshot? && !a.CallClose? && !a.SessionReturned?
    ensures !a.Signal?
  {
    hide Inv, S.Inv, S.Step, EpochInv;
    var e := |s.epochs| - 1;
    WorkingIsLast(s, e);
    Known(s, e);
    PassStaysHome(s.epochs[e], e, e in s.sessions, s.closed);
    match a
    case TakeFromSession(g, _) => WorkingIsLast(s, g);
    case TakeFromUser(g, _) => WorkingIsLast(s, g);
    case Snapshot(g) => WorkingIsLast(s, g);
    case CallClose(g, _) => WorkingIsLast(s, g);
    case SessionReturned(g, _) => WorkingIsLast(s, g);
    case Signal(g) => WorkingIsLast(s, g);
    case _ =>
  }

  lemma PassStuckStep(s: State, a: Action)
    requires Inv(s) && PassStuck(s) && Enabled(s, a)
    ensures PassStuck(Step(s, a))
  {
    PassStandsStill(s, a);
    var e := |s.epochs| - 1;
    if a.SessionStep? && a.e == e {
      Known(s, e);
      S.DoomedStep(s.epochs[e].sess, a.a, WIRE_CALLER);
      hide Inv, EpochInv, S.Inv, S.Step, S.Enabled, S.Doomed;
    } else {
      hide Inv;
      PassElsewhere(s, a);
    }
  }

  lemma PassElsewhere(s: State, a: Action)
    requires PassStuck(s) && Enabled(s, a) && !(a.SessionStep? && a.e == |s.epochs| - 1)
    requires !a.Wake? && !a.TakeFromSession? && !a.TakeFromUser? && !a.Snapshot? && !a.CallClose? && !a.SessionReturned?
    requires !a.Signal?
    ensures PassStuck(Step(s, a))
  {
    hide S.Step, S.Enabled, S.Doomed;
  }

  lemma StuckStep(s: State, a: Action)
    requires Inv(s) && Stuck(s) && Enabled(s, a)
    ensures Stuck(Step(s, a))
  {
    hide Inv, Enabled, Step, Stranded, PassStuck;
    if Stranded(s) {
      StrandedStep(s, a);
    } else {
      PassStuckStep(s, a);
    }
  }

  /** From a stuck state on, in every continuation, the loop never stops waiting. */
  lemma {:induction false} StuckForever(states: seq<State>, actions: seq<Action>, n: nat)
    requires IsPath(states, actions) && n < |states|
    requires Inv(states[0]) && Stuck(states[0])
    ensures Stuck(states[n])
    decreases n
  {
    hide Inv, Step, Enabled, Stuck;
    if n == 0 {
    } else {
      StuckForever(states, actions, n - 1);
      PathKeepsInv(states, actions, n - 1);
      StuckStep(states[n - 1], actions[n - 1]);
    }
  }

  lemma Prepend(s: State, a: Action, states: seq<State>, actions: seq<Action>)
    requires Enabled(s, a) && IsPath(states, actions) && states[0] == Step(s, a)
    ensures IsPath([s] + states, [a] + actions)
    ensures ([s] + states)[|[s] + states| - 1] == states[|states| - 1]
  {
    hide Enabled, Step;
    var ss, aa := [s] + states, [a] + actions;
    forall i | 0 <= i < |aa|
      ensures Enabled(ss[i], aa[i]) && ss[i + 1] == Step(ss[i], aa[i])
    {
      if i > 0 {
        assert ss[i] == states[i - 1] && ss[i + 1] == states[i] && aa[i] == actions[i - 1];
      }
    }
  }

  lemma Alone(s: State)
    ensures IsPath([s], [])
  {
  }

  /** The goroutine of the latest connection has a request and can serve it. */
  ghost predicate Serving(s: State) {
    AtWait(s) && (Last(s).shut.Taken? || Last(s).shut.Closing?) && !PassStuck(s)
  }

  /** The goroutine's next step, or that of its Close of the session. */
  ghost function Pass(s: State): Action
    requires AtWait(s)
  {
    var e := |s.epochs| - 1;
    if Last(s).shut.Taken? then Snapshot(e)
    else if !Last(s).shut.Closing? || Last(s).shut.todo == {} then Signal(e)
    else
      match S.CallerAt(Last(s).sess, WIRE_CALLER)
      case Outside => CallClose(e, e)
      case Rejected => SessionReturned(e, e)
      case Finished => SessionReturned(e, e)
      case Unregistered => if Last(s).notice.Deciding? then Decide(e) else SessionStep(e, S.LaunchHook(WIRE_CALLER))
      case _ => SessionStep(e, S.Onward(Last(s).sess, WIRE_CALLER))
  }

  function PassRank(s: State): nat
    requires AtWait(s)
  {
    if Last(s).shut.Taken? then 30
    else if !Last(s).shut.Closing? || Last(s).shut.todo == {} then 1
    else
      match S.CallerAt(Last(s).sess, WIRE_CALLER)
      case Outside => 20
      case Rejected => 2
      case Finished => 2
      case Unregistered => if Last(s).notice.Deciding? then 5 else 4
      case _ => 5 + S.Ahead(Last(s).sess, WIRE_CALLER)
  }

  function PassBook(s: State): nat
    requires AtWait(s)
  {
    Last(s).sess.book.active
  }

  /** What every step of a pass leaves alone, and that the goroutine gets nearer to closing waitCh. */
  ghost predicate Nearer(s: State, t: State)
    requires Serving(s)
  {
    && AtWait(t) && |t.epochs| == |s.epochs| && t.users == s.users
    && (Last(t).shut == Signalled(Last(s).shut.asker) ||
        (Serving(t) && Last(t).shut.asker == Last(s).shut.asker &&
         (PassRank(t) < PassRank(s) || (PassRank(t) == PassRank(s) && PassBook(t) < PassBook(s)))))
  }

  lemma UncalledIsFree(ss: S.State)
    requires S.Inv(ss) && S.CallerAt(ss, WIRE_CALLER) == S.Outside
    ensures S.Enabled(ss, S.Check(WIRE_CALLER))
    ensures var tt := S.Step(ss, S.Check(WIRE_CALLER));
      S.CallerAt(tt, WIRE_CALLER) == (if ss.closed then S.Rejected else S.PastCheck) && !S.Doomed(tt, WIRE_CALLER)
  {
  }

  lemma UnregisteredCounts(ss: S.State)
    requires S.Inv(ss)
    ensures S.CallerAt(ss, WIRE_CALLER) == S.Unregistered ==> ss.unregisters == 1
  {
    if S.CallerAt(ss, WIRE_CALLER) == S.Unregistered {
      assert S.Served(S.CallerAt(ss, WIRE_CALLER));
    }
  }

  /** A session that the pass has to close is closed on a closed wire, and its removal asks nobody. */
  lemma PassFacts(ep: Epoch, e: nat, inMap: bool, closed: bool)
    requires EpochInv(ep, e, inMap, closed) && ep.shut.Closing? && ep.shut.todo != {}
    ensures ep.shut.todo == {e} && closed && ep.registered && S.Inv(ep.sess)
    ensures ep.notice.Quiet? || ep.notice.Deciding? || ep.notice.Declined?
    ensures S.CallerAt(ep.sess, WIRE_CALLER) == S.Unregistered ==> !ep.notice.Quiet?
  {
    var x :| x in ep.shut.todo;
    assert x == e;
    UnregisteredCounts(ep.sess);
    hide S.Inv;
  }

  /** The steps of the goroutine itself. */
  lemma PassOwnStep(s: State)
    requires Inv(s) && Serving(s) && !Pass(s).SessionStep?
    ensures Enabled(s, Pass(s)) && Nearer(s, Step(s, Pass(s)))
  {
    hide Inv, EpochInv, S.Inv, S.Step, S.Enabled, S.Onward;
    var e := |s.epochs| - 1;
    var ep := s.epochs[e];
    Known(s, e);
    PassStarts(s, e);
    if ep.shut.Closing? && ep.shut.todo != {} {
      PassFacts(ep, e, e in s.sessions, s.closed);
      if Pass(s).CallClose? {
        UncalledIsFree(ep.sess);
      }
    }
  }

  lemma PassStarts(s: State, e: nat)
    requires Inv(s) && AtWait(s) && e == |s.epochs| - 1
    ensures s.epochs[e].shut.Taken? ==> S.CallerAt(s.epochs[e].sess, WIRE_CALLER) == S.Outside
    ensures s.sessions <= {e}
  {
    hide S.Inv;
    Known(s, e);
    AtMostLast(s);
  }

  /** The steps inside the session. */
  lemma PassInnerStep(s: State)
    requires Inv(s) && Serving(s) && Pass(s).SessionStep?
    ensures Enabled(s, Pass(s)) && Nearer(s, Step(s, Pass(s)))
  {
    var e := |s.epochs| - 1;
    var ep := s.epochs[e];
    Known(s, e);
    PassFacts(ep, e, e in s.sessions, s.closed);
    S.OnwardHelps(ep.sess, WIRE_CALLER);
    hide Inv, EpochInv, S.Inv, S.Doomed;
  }

  /** The goroutine closes waitCh in some continuation, and has not answered yet. */
  lemma {:induction false} ReachSignal(s: State) returns (states: seq<State>, actions: seq<Action>)
    requires Inv(s) && Serving(s)
    ensures IsPath(states, actions) && states[0] == s
    ensures var t := states[|states| - 1];
      && Inv(t) && AtWait(t) && |t.epochs| == |s.epochs| && t.users == s.users
      && Last(t).shut == Signalled(Last(s).shut.asker)
    decreases PassRank(s), PassBook(s)
  {
    hide Inv, Step, Enabled, Pass, PassRank, PassBook, PassStuck;
    var a := Pass(s);
    if a.SessionStep? {
      PassInnerStep(s);
    } else {
      PassOwnStep(s);
    }
    StepKeepsInv(s, a);
    var t := Step(s, a);
    var rest, more;
    if Last(t).shut.Signalled? {
      rest, more := [t], [];
      Alone(t);
    } else {
      rest, more := ReachSignal(t);
    }
    states, actions := [s] + rest, [a] + more;
    Prepend(s, a, rest, more);
  }

  /** The loop wakes in some continuation. */
  ghost predicate MayWake(s: State) {
    exists states: seq<State>, actions: seq<Action> ::
      IsPath(states, actions) && states[0] == s && states[|states| - 1].loop == Top
  }

  lemma WakeUp(s: State) returns (states: seq<State>, actions: seq<Action>)
    requires Inv(s) && AtWait(s) && (Last(s).shut.Signalled? || Last(s).shut.Over?)
    ensures IsPath(states, actions) && states[0] == s && states[|states| - 1].loop == Top
  {
    hide Inv, EpochInv;
    Known(s, |s.epochs| - 1);
    SignalledHasClosed(s.epochs[|s.epochs| - 1], |s.epochs| - 1, |s.epochs| - 1 in s.sessions, s.closed);
    states, actions := [s, Step(s, Wake)], [Wake];
  }

  lemma SignalledHasClosed(ep: Epoch, e: nat, inMap: bool, closed: bool)
    requires EpochInv(ep, e, inMap, closed) && (ep.shut.Signalled? || ep.shut.Over?)
    ensures ep.waitCloses == 1
  {
  }

  lemma {:induction false} Join(p: seq<State>, pa: seq<Action>, q: seq<State>, qa: seq<Action>)
    requires IsPath(p, pa) && IsPath(q, qa) && p[|p| - 1] == q[0]
    ensures IsPath(p + q[1..], pa + qa)
    ensures (p + q[1..])[0] == p[0] && (p + q[1..])[|p + q[1..]| - 1] == q[|q| - 1]
  {
    hide Enabled, Step;
    var ss, aa := p + q[1..], pa + qa;
    forall i | 0 <= i < |aa|
      ensures Enabled(ss[i], aa[i]) && ss[i + 1] == Step(ss[i], aa[i])
    {
      if i >= |pa| {
        assert aa[i] == qa[i - |pa|] && ss[i + 1] == q[i - |pa| + 1];
        assert ss[i] == q[i - |pa|];
      } else {
        assert aa[i] == pa[i] && ss[i] == p[i] && ss[i + 1] == p[i + 1];
      }
    }
  }

  lemma UnusedId(xs: set<nat>) returns (b: nat)
    ensures b !in xs
  {
    b := 0;
    var rest := xs;
    while rest != {}
      invariant rest <= xs
      invariant forall x :: x in xs && x !in rest ==> x < b
      decreases rest
    {
      var x :| x in rest;
      b, rest := if x < b then b else x + 1, rest - {x};
    }
  }

  /** Who can ask the listening goroutine, nearest first: the session's removal, or a caller of Wire.Close. */
  datatype Asking = BySession | ByUser(u: nat)

  ghost predicate CanAsk(s: State, who: Asking)
    requires AtWait(s)
  {
    match who
    case BySession => Last(s).notice.Ready? || Last(s).notice.Offering?
    case ByUser(u) =>
      match UserAt(s, u)
      case UserOffering(ch) => ch == |s.epochs|
      case Marked => true
      case OpenSeen => true
      case ConnSeen => !s.closed
      case Fresh => !s.closed
      case _ => false
  }

  ghost function Ask(s: State, who: Asking): Action
    requires AtWait(s)
  {
    var e := |s.epochs| - 1;
    match who
    case BySession => if Last(s).notice.Ready? then Offer(e) else TakeFromSession(e, e)
    case ByUser(u) =>
      match UserAt(s, u)
      case UserOffering(_) => TakeFromUser(e, u)
      case Marked => UserOffer(u)
      case OpenSeen => UserMark(u)
      case ConnSeen => UserCheckClosed(u)
      case _ => UserCheckConn(u)
  }

  function AskRank(s: State, who: Asking): nat
    requires AtWait(s)
  {
    match who
    case BySession => if Last(s).notice.Ready? then 2 else 1
    case ByUser(u) =>
      match UserAt(s, u)
      case UserOffering(_) => 1
      case Marked => 2
      case OpenSeen => 3
      case ConnSeen => 4
      case _ => 5
  }

  function AskerOf(s: State, who: Asking): Requester
    requires AtWait(s)
  {
    match who
    case BySession => SessionOf(|s.epochs| - 1)
    case ByUser(u) => User(u)
  }

  lemma AskHelps(s: State, who: Asking)
    requires Inv(s) && AtWait(s) && Last(s).shut.Listening? && CanAsk(s, who)
    ensures Enabled(s, Ask(s, who))
    ensures var t := Step(s, Ask(s, who));
      && AtWait(t) && |t.epochs| == |s.epochs|
      && (Last(t).shut == Taken(AskerOf(s, who)) ||
          (Last(t).shut.Listening? && CanAsk(t, who) && AskRank(t, who) < AskRank(s, who)))
    ensures who.ByUser? && Ask(s, who).TakeFromUser? ==> UserAt(Step(s, Ask(s, who)), who.u) == UserAwaiting
  {
    hide S.Inv, S.Step, S.Enabled;
    var e := |s.epochs| - 1;
    Known(s, e);
  }

  /** If somebody can ask, the goroutine takes the request in some continuation. */
  lemma {:induction false} ReachTaken(s: State, who: Asking) returns (states: seq<State>, actions: seq<Action>)
    requires Inv(s) && AtWait(s) && Last(s).shut.Listening? && CanAsk(s, who)
    ensures IsPath(states, actions) && states[0] == s
    ensures var t := states[|states| - 1];
      && Inv(t) && AtWait(t) && |t.epochs| == |s.epochs| && Last(t).shut == Taken(AskerOf(s, who))
      && (who.ByUser? ==> UserAt(t, who.u) == UserAwaiting)
    decreases AskRank(s, who)
  {
    var a := Ask(s, who);
    AskHelps(s, who);
    if who.ByUser? {
      TakenAwaits(s, who);
    }
    hide Inv, Step, Enabled, Ask, AskRank, CanAsk;
    StepKeepsInv(s, a);
    var t := Step(s, a);
    var rest, more;
    if Last(t).shut.Taken? {
      rest, more := [t], [];
      Alone(t);
    } else {
      rest, more := ReachTaken(t, who);
    }
    states, actions := [s] + rest, [a] + more;
    Prepend(s, a, rest, more);
  }

  lemma TakenAwaits(s: State, who: Asking)
    requires AtWait(s) && Last(s).shut.Listening? && Enabled(s, Ask(s, who)) && who.ByUser?
    ensures Last(Step(s, Ask(s, who))).shut.Taken? ==> Ask(s, who).TakeFromUser?
  {
    hide S.Step, S.Enabled;
  }

  /** A state in which nobody can ask is a stranded one. */
  lemma SomebodyAsks(s: State) returns (who: Asking)
    requires Inv(s) && AtWait(s) && Last(s).shut.Listening? && !Stranded(s)
    ensures CanAsk(s, who)
  {
    hide S.Inv;
    Known(s, |s.epochs| - 1);
    if Last(s).notice.Ready? || Last(s).notice.Offering? {
      who := BySession;
    } else if !s.closed {
      var u := UnusedId(s.users.Keys);
      who := ByUser(u);
    } else {
      var u :| UserAt(s, u) == OpenSeen || UserAt(s, u) == Marked || UserAt(s, u) == UserOffering(|s.epochs|);
      who := ByUser(u);
    }
  }

  lemma TakenServes(s: State)
    requires AtWait(s) && Last(s).shut.Taken?
    ensures Serving(s)
  {
  }

  lemma WayToWake(s: State) returns (states: seq<State>, actions: seq<Action>)
    requires Inv(s) && AtWait(s) && !Stuck(s)
    ensures IsPath(states, actions) && states[0] == s && states[|states| - 1].loop == Top
  {
    hide Inv, Enabled, Step, Stranded, PassStuck, CanAsk;
    if Last(s).shut.Signalled? || Last(s).shut.Over? {
      states, actions := WakeUp(s);
    } else if Last(s).shut.Listening? {
      var who := SomebodyAsks(s);
      var p, pa := ReachTaken(s, who);
      TakenServes(p[|p| - 1]);
      var q, qa := ReachSignal(p[|p| - 1]);
      var r, ra := WakeUp(q[|q| - 1]);
      Join(q, qa, r, ra);
      Join(p, pa, q + r[1..], qa + ra);
      states, actions := p + (q + r[1..])[1..], pa + (qa + ra);
    } else {
      var q, qa := ReachSignal(s);
      var r, ra := WakeUp(q[|q| - 1]);
      Join(q, qa, r, ra);
      states, actions := q + r[1..], qa + ra;
    }
  }

  /**
   Exactly when: in every reachable state in which the loop waits, some continuation wakes it, if and
   only if the state is not stuck: neither stranded by a Wire.Close during the dial, nor with the
   goroutine stuck in a Close of the session that lost the race to another caller.
   */
  lemma WakesExactly(states: seq<State>, actions: seq<Action>, i: nat)
    requires IsRun(states, actions) && i < |states| && states[i].loop == Waiting
    ensures MayWake(states[i]) <==> !Stuck(states[i])
  {
    hide Inv, Step, Enabled, Stranded, PassStuck;
    RunKeepsInv(states, actions, i);
    var s := states[i];
    WaitingHasEpoch(s);
    if Stuck(s) {
      forall ss: seq<State>, aa: seq<Action> | IsPath(ss, aa) && ss[0] == s
        ensures ss[|ss| - 1].loop != Top
      {
        StuckForever(ss, aa, |ss| - 1);
        StuckWaits(ss[|ss| - 1]);
      }
    } else {
      var ss, aa := WayToWake(s);
    }
  }

  lemma WaitingHasEpoch(s: State)
    requires Inv(s) && s.loop == Waiting
    ensures AtWait(s)
  {
  }

  lemma StuckWaits(s: State)
    requires Stuck(s)
    ensures AtWait(s)
  {
  }

  /** The goroutine of this connection works for that user. */
  predicate ServesUser(ep: Epoch, u: nat) {
    (ep.shut.Taken? || ep.shut.Closing? || ep.shut.Signalled?) && ep.shut.asker == User(u)
  }

  /** Callers of Wire.Close offer on a channel that exists, and wait for the latest goroutine, which works for them. */
  ghost predicate ClosersInv(s: State) {
    && (forall u :: UserAt(s, u).UserOffering? ==> UserAt(s, u).ch <= |s.epochs|)
    && (forall u :: UserAt(s, u).UserAwaiting? ==> |s.epochs| > 0 && ServesUser(Last(s), u))
  }

  /** Where a step leaves the goroutine of connection `e`. */
  function ShutAfter(s: State, a: Action, e: nat): Shut
    requires Enabled(s, a) && e < |s.epochs|
  {
    var shut := s.epochs[e].shut;
    match a
    case TakeFromSession(g, x) => if g == e then Taken(SessionOf(x)) else shut
    case TakeFromUser(g, u) => if g == e then Taken(User(u)) else shut
    case Snapshot(g) => if g == e then Closing(shut.asker, s.sessions) else shut
    case SessionReturned(g, x) => if g == e then Closing(shut.asker, shut.todo - {x}) else shut
    case Signal(g) => if g == e then Signalled(shut.asker) else shut
    case Reply(g) => if g == e then Over(shut.asker) else shut
    case _ => shut
  }

  predicate ByGoroutine(a: Action) {
    a.TakeFromSession? || a.TakeFromUser? || a.Snapshot? || a.SessionReturned? || a.Signal? || a.Reply?
  }

  lemma OtherShutMoves(s: State, a: Action, e: nat)
    requires Enabled(s, a) && e < |s.epochs| && !ByGoroutine(a)
    ensures |s.epochs| <= |Step(s, a).epochs| && Step(s, a).epochs[e].shut == s.epochs[e].shut
    ensures !a.Install? ==> |Step(s, a).epochs| == |s.epochs|
  {
    hide S.Step, S.Enabled;
  }

  lemma ShutMoves(s: State, a: Action, e: nat)
    requires Enabled(s, a) && e < |s.epochs|
    ensures |s.epochs| <= |Step(s, a).epochs| && Step(s, a).epochs[e].shut == ShutAfter(s, a, e)
    ensures !a.Install? ==> |Step(s, a).epochs| == |s.epochs|
  {
    hide S.Step, S.Enabled;
    if !ByGoroutine(a) {
      hide Step;
      OtherShutMoves(s, a, e);
    }
  }

  /** A user's request ends the wire: after it no connection is installed. */
  lemma NoInstall(s: State)
    requires Inv(s) && |s.epochs| > 0 && !Last(s).shut.Listening? && Last(s).shut.asker.User?
    ensures s.loop != Opening
  {
    hide S.Inv, EpochInv;
    Known(s, |s.epochs| - 1);
  }

  lemma ServiceStep(s: State, a: Action, u: nat)
    requires Inv(s) && Enabled(s, a) && |s.epochs| > 0 && ServesUser(Last(s), u)
    ensures |Step(s, a).epochs| > 0
    ensures ServesUser(Last(Step(s, a)), u) || (a == Reply(|s.epochs| - 1) && Last(s).shut.asker == User(u))
  {
    hide Inv, Step;
    var e := |s.epochs| - 1;
    NoInstall(s);
    ShutMoves(s, a, e);
  }

  lemma ReplyFinishes(s: State, e: nat)
    requires Enabled(s, Reply(e)) && s.epochs[e].shut.asker.User?
    ensures UserAt(Step(s, Reply(e)), s.epochs[e].shut.asker.u) == Finished
  {
  }

  lemma OfferStep(s: State, a: Action)
    requires ClosersInv(s) && Enabled(s, a)
    ensures forall u :: UserAt(Step(s, a), u).UserOffering? ==> UserAt(Step(s, a), u).ch <= |Step(s, a).epochs|
  {
    hide S.Step, S.Enabled;
    OthersStay(s, a);
  }

  lemma AwaitingComesFrom(s: State, a: Action, u: nat)
    requires Enabled(s, a) && UserAt(Step(s, a), u).UserAwaiting?
    ensures UserAt(s, u).UserAwaiting? || (a.TakeFromUser? && a.u == u)
  {
    hide S.Step, S.Enabled;
    OthersStay(s, a);
  }

  lemma ClosersStep(s: State, a: Action)
    requires Inv(s) && ClosersInv(s) && Enabled(s, a)
    ensures ClosersInv(Step(s, a))
  {
    OfferStep(s, a);
    forall u | UserAt(Step(s, a), u).UserAwaiting?
      ensures |Step(s, a).epochs| > 0 && ServesUser(Last(Step(s, a)), u)
    {
      hide Inv, Step;
      AwaitingComesFrom(s, a, u);
      if UserAt(s, u).UserAwaiting? {
        ServiceStep(s, a, u);
        if a == Reply(|s.epochs| - 1) {
          ReplyFinishes(s, a.e);
        }
      } else {
        WorkingIsLast(s, a.e);
        ShutMoves(s, a, a.e);
      }
    }
  }

  lemma {:induction false} RunKeepsClosersInv(states: seq<State>, actions: seq<Action>, i: nat)
    requires IsRun(states, actions) && i < |states|
    ensures ClosersInv(states[i])
    decreases i
  {
    hide Inv, Step, Enabled, ClosersInv;
    if i == 0 {
      assert ClosersInv(INITIAL) by {
        NoClosers();
      }
    } else {
      RunKeepsClosersInv(states, actions, i - 1);
      RunKeepsInv(states, actions, i - 1);
      ClosersStep(states[i - 1], actions[i - 1]);
    }
  }

  lemma NoClosers()
    ensures ClosersInv(INITIAL)
  {
  }

  /** Inside close(): past setting the flag, and not returned. */
  predicate InClose(p: Closer) {
    p.Marked? || p.UserOffering? || p.UserAwaiting?
  }

  /**
   The caller will offer, or offers, on a channel that no goroutine receives from any more, or yet, or
   ever; or the goroutine that took its request is stuck.
   */
  ghost predicate CloseDoomed(s: State, u: nat) {
    match UserAt(s, u)
    case Marked => s.loop == Top || s.loop == Returned || (AtWait(s) && !Last(s).shut.Listening?)
    case UserOffering(ch) => ch == 0 || (ch <= |s.epochs| && !s.epochs[ch - 1].shut.Listening?)
    case UserAwaiting => PassStuck(s)
    case _ => false
  }

  /** No goroutine listens again. */
  lemma DeadStaysDead(s: State, a: Action, e: nat)
    requires Enabled(s, a) && e < |s.epochs| && !s.epochs[e].shut.Listening?
    ensures e < |Step(s, a).epochs| && !Step(s, a).epochs[e].shut.Listening?
  {
    hide Step;
    ShutMoves(s, a, e);
  }

  lemma EndedIsDead(s: State)
    requires Inv(s) && |s.epochs| > 0 && (s.loop == Top || s.loop == Returned)
    ensures !Last(s).shut.Listening?
  {
    hide S.Inv;
    Known(s, |s.epochs| - 1);
  }

  lemma LoopEnds(s: State, a: Action)
    requires Enabled(s, a) && s.closed && (s.loop == Top || s.loop == Returned || AtWait(s))
    ensures Step(s, a).closed && |Step(s, a).epochs| == |s.epochs|
    ensures s.loop == Top || s.loop == Returned ==> Step(s, a).loop == Top || Step(s, a).loop == Returned
    ensures AtWait(s) ==> Step(s, a).loop == Top || AtWait(Step(s, a))
  {
    hide S.Step, S.Enabled;
  }

  lemma MarkedStep(s: State, a: Action, u: nat)
    requires Enabled(s, a) && UserAt(s, u).Marked?
    ensures UserAt(Step(s, a), u) == if a == UserOffer(u) then UserOffering(|s.epochs|) else Marked
  {
    hide S.Step, S.Enabled;
    OthersStay(s, a);
  }

  lemma MarkedDoomedStep(s: State, a: Action, u: nat)
    requires Inv(s) && Enabled(s, a) && UserAt(s, u).Marked? && CloseDoomed(s, u)
    ensures CloseDoomed(Step(s, a), u)
  {
    AskingIsClosed(s, u);
    LoopEnds(s, a);
    MarkedStep(s, a, u);
    hide Inv, Step;
    if |s.epochs| > 0 {
      if !AtWait(s) {
        EndedIsDead(s);
      }
      DeadStaysDead(s, a, |s.epochs| - 1);
    }
  }

  lemma OfferingStep(s: State, a: Action, u: nat)
    requires Enabled(s, a) && UserAt(s, u).UserOffering?
    ensures UserAt(Step(s, a), u) == UserAt(s, u)
      || (exists e: nat :: e < |s.epochs| && s.epochs[e].shut == Listening && UserAt(s, u).ch == e + 1)
  {
    hide S.Step, S.Enabled;
    OthersStay(s, a);
    if a.TakeFromUser? {
      assert s.epochs[a.e].shut == Listening;
    }
  }

  lemma OfferingDoomedStep(s: State, a: Action, u: nat)
    requires Enabled(s, a) && UserAt(s, u).UserOffering? && CloseDoomed(s, u)
    ensures CloseDoomed(Step(s, a), u)
  {
    hide Step;
    var ch := UserAt(s, u).ch;
    OfferingStep(s, a, u);
    if ch > 0 {
      DeadStaysDead(s, a, ch - 1);
    }
  }

  lemma AwaitingStep(s: State, a: Action, u: nat)
    requires Enabled(s, a) && UserAt(s, u).UserAwaiting?
    ensures UserAt(Step(s, a), u) == UserAwaiting
      || (exists e: nat :: e < |s.epochs| && s.epochs[e].shut == Signalled(User(u)))
  {
    hide S.Step, S.Enabled;
    OthersStay(s, a);
    if a.Reply? {
      assert s.epochs[a.e].shut.Signalled?;
    }
  }

  /** A stuck pass is the only goroutine that could answer a user. */
  lemma AwaitingDoomedStep(s: State, a: Action, u: nat)
    requires Inv(s) && Enabled(s, a) && UserAt(s, u).UserAwaiting? && CloseDoomed(s, u)
    ensures CloseDoomed(Step(s, a), u)
  {
    PassStuckStep(s, a);
    AwaitingStep(s, a, u);
    hide Step, S.Inv, EpochInv;
    forall e: nat | e < |s.epochs|
      ensures s.epochs[e].shut != Signalled(User(u))
    {
      Known(s, e);
    }
  }

  lemma CloseDoomedStep(s: State, a: Action, u: nat)
    requires Inv(s) && Enabled(s, a) && CloseDoomed(s, u)
    ensures CloseDoomed(Step(s, a), u)
  {
    hide Inv, Step, Enabled;
    match UserAt(s, u)
    case Marked => MarkedDoomedStep(s, a, u);
    case UserOffering(_) => OfferingDoomedStep(s, a, u);
    case UserAwaiting => AwaitingDoomedStep(s, a, u);
  }

  lemma {:induction false} CloseDoomedForever(states: seq<State>, actions: seq<Action>, n: nat, u: nat)
    requires IsPath(states, actions) && n < |states|
    requires Inv(states[0]) && CloseDoomed(states[0], u)
    ensures CloseDoomed(states[n], u)
    decreases n
  {
    hide Inv, Step, Enabled, CloseDoomed;
    if n == 0 {
    } else {
      CloseDoomedForever(states, actions, n - 1, u);
      PathKeepsInv(states, actions, n - 1);
      CloseDoomedStep(states[n - 1], actions[n - 1], u);
    }
  }

  /** The goroutine answers in some continuation. */
  lemma ReachReply(s: State, u: nat) returns (states: seq<State>, actions: seq<Action>)
    requires Inv(s) && AtWait(s) && ServesUser(Last(s), u) && UserAt(s, u) == UserAwaiting && !PassStuck(s)
    ensures IsPath(states, actions) && states[0] == s && UserAt(states[|states| - 1], u) == Finished
  {
    hide Inv, PassStuck;
    var p, pa := [s], [];
    if !Last(s).shut.Signalled? {
      hide Step, Enabled;
      p, pa := ReachSignal(s);
    }
    var t := p[|p| - 1];
    var r := Reply(|t.epochs| - 1);
    var q, qa := [t, Step(t, r)], [r];
    hide Step, Enabled;
    Join(p, pa, q, qa);
    states, actions := p + q[1..], pa + qa;
  }

  /** From past its check the connect loop reaches a listening goroutine; the marked caller stays marked. */
  lemma {:induction false} ReachListening(s: State, u: nat) returns (states: seq<State>, actions: seq<Action>)
    requires Inv(s) && UserAt(s, u).Marked? && (s.loop == Passed || s.loop == Dialing || s.loop == Opening)
    ensures IsPath(states, actions) && states[0] == s
    ensures var t := states[|states| - 1]; Inv(t) && AtWait(t) && Last(t).shut.Listening? && UserAt(t, u).Marked?
    decreases if s.loop == Passed then 2 else if s.loop == Dialing then 1 else 0
  {
    hide Inv;
    var a := if s.loop == Passed then LoopReset else if s.loop == Dialing then DialSucceeds else Install;
    StepKeepsInv(s, a);
    var t := Step(s, a);
    var rest, more;
    if s.loop == Opening {
      rest, more := [t], [];
      Alone(t);
    } else {
      rest, more := ReachListening(t, u);
    }
    hide Step, Enabled;
    states, actions := [s] + rest, [a] + more;
    Prepend(s, a, rest, more);
  }

  /** A request that a listening goroutine takes is answered in some continuation. */
  lemma ReachAnswer(s: State, u: nat) returns (states: seq<State>, actions: seq<Action>)
    requires Inv(s) && AtWait(s) && Last(s).shut.Listening? && CanAsk(s, ByUser(u))
    ensures IsPath(states, actions) && states[0] == s && UserAt(states[|states| - 1], u) == Finished
  {
    hide Inv, Enabled, Step, CanAsk;
    var p, pa := ReachTaken(s, ByUser(u));
    TakenServes(p[|p| - 1]);
    var q, qa := ReachReply(p[|p| - 1], u);
    Join(p, pa, q, qa);
    states, actions := p + q[1..], pa + qa;
  }

  /** Some continuation lets the caller of Wire.Close return. */
  ghost predicate CloseMayReturn(s: State, u: nat) {
    exists states: seq<State>, actions: seq<Action> ::
      IsPath(states, actions) && states[0] == s && UserAt(states[|states| - 1], u) == Finished
  }

  lemma AwaitedAtWait(s: State, u: nat)
    requires Inv(s) && ClosersInv(s) && UserAt(s, u).UserAwaiting?
    ensures |s.epochs| > 0 && ServesUser(Last(s), u)
    ensures AtWait(s) || Last(s).shut.Signalled?
  {
    hide Inv;
    if !Last(s).shut.Signalled? {
      WorkingIsLast(s, |s.epochs| - 1);
    }
  }

  lemma LateReply(s: State, u: nat) returns (states: seq<State>, actions: seq<Action>)
    requires |s.epochs| > 0 && Last(s).shut == Signalled(User(u)) && UserAt(s, u) == UserAwaiting
    ensures IsPath(states, actions) && states[0] == s && UserAt(states[|states| - 1], u) == Finished
  {
    var r := Reply(|s.epochs| - 1);
    states, actions := [s, Step(s, r)], [r];
  }

  lemma WayOut(s: State, u: nat) returns (states: seq<State>, actions: seq<Action>)
    requires Inv(s) && ClosersInv(s) && InClose(UserAt(s, u)) && !CloseDoomed(s, u)
    ensures IsPath(states, actions) && states[0] == s && UserAt(states[|states| - 1], u) == Finished
  {
    hide Inv, Enabled, Step, PassStuck;
    match UserAt(s, u)
    case Marked =>
      if s.loop == Waiting {
        WaitingHasEpoch(s);
        states, actions := ReachAnswer(s, u);
      } else {
        var p, pa := ReachListening(s, u);
        var q, qa := ReachAnswer(p[|p| - 1], u);
        Join(p, pa, q, qa);
        states, actions := p + q[1..], pa + qa;
      }
    case UserOffering(ch) =>
      WorkingIsLast(s, ch - 1);
      states, actions := ReachAnswer(s, u);
    case UserAwaiting =>
      AwaitedAtWait(s, u);
      if Last(s).shut.Signalled? {
        states, actions := LateReply(s, u);
      } else {
        states, actions := ReachReply(s, u);
      }
  }

  /**
   Exactly when: in every reachable state, a caller of Wire.Close that has set the flag and goes on to
   close() can still return if and only if it is not doomed.
   */
  lemma CloseReturnsExactly(states: seq<State>, actions: seq<Action>, i: nat, u: nat)
    requires IsRun(states, actions) && i < |states| && InClose(UserAt(states[i], u))
    ensures CloseMayReturn(states[i], u) <==> !CloseDoomed(states[i], u)
  {
    hide Inv, Step, Enabled, PassStuck;
    RunKeepsInv(states, actions, i);
    RunKeepsClosersInv(states, actions, i);
    var s := states[i];
    if CloseDoomed(s, u) {
      forall ss: seq<State>, aa: seq<Action> | IsPath(ss, aa) && ss[0] == s
        ensures UserAt(ss[|ss| - 1], u) != Finished
      {
        CloseDoomedForever(ss, aa, |ss| - 1, u);
      }
    } else {
      var ss, aa := WayOut(s, u);
    }
  }

  /** Session.Close, having taken its session off the map, asks a goroutine that works for a Wire.Close. */
  predicate RemovalDoomed(s: State, e: nat)
    requires e < |s.epochs|
  {
    (s.epochs[e].notice.Ready? || s.epochs[e].notice.Offering?) && !s.epochs[e].shut.Listening?
  }

  predicate Removed(n: Notice) {
    n.Declined? || n.Answered?
  }

  /** How a step moves a removal that has begun. */
  lemma NoticeStep(s: State, a: Action, e: nat)
    requires Enabled(s, a) && e < |s.epochs| && (s.epochs[e].notice.Ready? || s.epochs[e].notice.Offering?)
    requires s.epochs[e].sess.unregisters == 1 && S.Inv(s.epochs[e].sess)
    requires !s.epochs[e].shut.Listening? && (s.epochs[e].notice.Offering? ==> s.epochs[e].notice.ch == e + 1)
    ensures e < |Step(s, a).epochs|
    ensures Step(s, a).epochs[e].notice.Ready? || Step(s, a).epochs[e].notice.Offering?
  {
    if a.SessionStep? && a.a.UnregisterSession? && a.e == e {
      S.StepKeepsInv(s.epochs[e].sess, a.a);
    }
    hide S.Step, S.Enabled;
  }

  lemma RemovalDoomedStep(s: State, a: Action, e: nat)
    requires Inv(s) && Enabled(s, a) && e < |s.epochs| && RemovalDoomed(s, e)
    ensures e < |Step(s, a).epochs| && RemovalDoomed(Step(s, a), e)
  {
    hide Inv, Step, S.Inv;
    Known(s, e);
    UnregisteredWasRegistered(s.epochs[e], e, e in s.sessions, s.closed);
    DeadStaysDead(s, a, e);
    NoticeStep(s, a, e);
  }

  lemma {:induction false} RemovalDoomedForever(states: seq<State>, actions: seq<Action>, n: nat, e: nat)
    requires IsPath(states, actions) && n < |states|
    requires Inv(states[0]) && e < |states[0].epochs| && RemovalDoomed(states[0], e)
    ensures e < |states[n].epochs| && RemovalDoomed(states[n], e)
    decreases n
  {
    hide Inv, Step, Enabled, RemovalDoomed;
    if n == 0 {
    } else {
      RemovalDoomedForever(states, actions, n - 1, e);
      PathKeepsInv(states, actions, n - 1);
      RemovalDoomedStep(states[n - 1], actions[n - 1], e);
    }
  }

  /** What the goroutine's state says of a removal. */
  lemma RemovalFacts(ep: Epoch, e: nat, inMap: bool, closed: bool)
    requires EpochInv(ep, e, inMap, closed)
    ensures ep.notice.Deciding? && !ep.shut.Listening? ==> closed
    ensures ep.notice.Offering? ==> ep.notice.ch == e + 1
    ensures ep.notice.Awaiting? ==> (ep.shut.Taken? || ep.shut.Closing? || ep.shut.Signalled?) && ep.shut.asker == SessionOf(e)
    ensures ep.shut == Signalled(SessionOf(e)) ==> ep.notice.Awaiting?
    ensures ep.shut.Closing? && ep.shut.asker == SessionOf(e) ==> e !in ep.shut.todo
  {
    hide S.Inv;
  }

  lemma AnswerRemoval(s: State, e: nat) returns (states: seq<State>, actions: seq<Action>)
    requires Inv(s) && e < |s.epochs| && s.epochs[e].shut == Signalled(SessionOf(e))
    ensures IsPath(states, actions) && states[0] == s
    ensures e < |states[|states| - 1].epochs| && states[|states| - 1].epochs[e].notice == Answered
  {
    hide Inv, EpochInv;
    Known(s, e);
    RemovalFacts(s.epochs[e], e, e in s.sessions, s.closed);
    states, actions := [s, Step(s, Reply(e))], [Reply(e)];
  }

  lemma ServeRemoval(s: State, e: nat) returns (states: seq<State>, actions: seq<Action>)
    requires Inv(s) && AtWait(s) && e == |s.epochs| - 1
    requires Last(s).shut.Taken? || Last(s).shut.Closing?
    requires Last(s).shut.asker == SessionOf(e)
    ensures IsPath(states, actions) && states[0] == s
    ensures e < |states[|states| - 1].epochs| && states[|states| - 1].epochs[e].notice == Answered
  {
    hide Inv, Enabled, Step, EpochInv, S.Doomed;
    Known(s, e);
    RemovalFacts(s.epochs[e], e, e in s.sessions, s.closed);
    var p, pa := ReachSignal(s);
    var q, qa := AnswerRemoval(p[|p| - 1], e);
    Join(p, pa, q, qa);
    states, actions := p + q[1..], pa + qa;
  }

  lemma AskAndServe(s: State, e: nat) returns (states: seq<State>, actions: seq<Action>)
    requires Inv(s) && e < |s.epochs| && s.epochs[e].shut.Listening?
    requires s.epochs[e].notice.Ready? || s.epochs[e].notice.Offering?
    ensures IsPath(states, actions) && states[0] == s
    ensures e < |states[|states| - 1].epochs| && states[|states| - 1].epochs[e].notice == Answered
  {
    hide Inv, Enabled, Step;
    WorkingIsLast(s, e);
    var p, pa := ReachTaken(s, BySession);
    var q, qa := ServeRemoval(p[|p| - 1], e);
    Join(p, pa, q, qa);
    states, actions := p + q[1..], pa + qa;
  }

  lemma RemovalWayOut(s: State, e: nat) returns (states: seq<State>, actions: seq<Action>)
    requires Inv(s) && e < |s.epochs| && !s.epochs[e].notice.Quiet? && !RemovalDoomed(s, e)
    ensures IsPath(states, actions) && states[0] == s
    ensures e < |states[|states| - 1].epochs| && Removed(states[|states| - 1].epochs[e].notice)
  {
    hide Inv, EpochInv;
    Known(s, e);
    RemovalFacts(s.epochs[e], e, e in s.sessions, s.closed);
    match s.epochs[e].notice
    case Deciding =>
      var t := Step(s, Decide(e));
      StepKeepsInv(s, Decide(e));
      var q, qa := [t], [];
      if !s.closed {
        q, qa := AskAndServe(t, e);
      }
      states, actions := [s] + q, [Decide(e)] + qa;
      Prepend(s, Decide(e), q, qa);
    case Awaiting =>
      if s.epochs[e].shut.Signalled? {
        states, actions := AnswerRemoval(s, e);
      } else {
        WorkingIsLast(s, e);
        states, actions := ServeRemoval(s, e);
      }
    case Declined => states, actions := [s], [];
    case Answered => states, actions := [s], [];
    case _ => states, actions := AskAndServe(s, e);
  }

  /** Some continuation lets Session.Close get through unregisterSession. */
  ghost predicate RemovalMayReturn(s: State, e: nat) {
    exists states: seq<State>, actions: seq<Action> ::
      && IsPath(states, actions) && states[0] == s
      && e < |states[|states| - 1].epochs| && Removed(states[|states| - 1].epochs[e].notice)
  }

  /**
   Exactly when: in every reachable state, a Session.Close that has taken its session off the map can
   get out of unregisterSession if and only if it is not to ask a goroutine that took a Wire.Close first.
   */
  lemma RemovalReturnsExactly(states: seq<State>, actions: seq<Action>, i: nat, e: nat)
    requires IsRun(states, actions) && i < |states| && e < |states[i].epochs| && !states[i].epochs[e].notice.Quiet?
    ensures RemovalMayReturn(states[i], e) <==> !RemovalDoomed(states[i], e)
  {
    hide Inv, Step, Enabled;
    RunKeepsInv(states, actions, i);
    var s := states[i];
    if RemovalDoomed(s, e) {
      forall ss: seq<State>, aa: seq<Action> | IsPath(ss, aa) && ss[0] == s
        ensures e < |ss[|ss| - 1].epochs| && !Removed(ss[|ss| - 1].epochs[e].notice)
      {
        RemovalDoomedForever(ss, aa, |ss| - 1, e);
      }
    } else {
      var ss, aa := RemovalWayOut(s, e);
    }
  }

  lemma Extend(states: seq<State>, actions: seq<Action>, a: Action) returns (longer: seq<State>, more: seq<Action>)
    requires IsRun(states, actions) && Enabled(states[|states| - 1], a)
    ensures longer != [] && IsRun(longer, more) && longer[|longer| - 1] == Step(states[|states| - 1], a)
  {
    hide Step, Enabled;
    longer, more := states + [Step(states[|states| - 1], a)], actions + [a];
  }

  lemma Undialled() returns (states: seq<State>, actions: seq<Action>)
    ensures IsRun(states, actions) && states == [INITIAL]
  {
    states, actions := [INITIAL], [];
  }

  /** A Wire.Close during the dial succeeds at once, and then Connect never returns. */
  lemma CloseWhileDialing() returns (states: seq<State>, actions: seq<Action>)
    ensures IsRun(states, actions)
    ensures UserAt(states[|states| - 1], 1) == Finished && Stranded(states[|states| - 1])
  {
    hide IsRun;
    states, actions := Undialled();
    states, actions := Extend(states, actions, LoopCheck(false));
    states, actions := Extend(states, actions, LoopReset);
    states, actions := Extend(states, actions, UserCheckConn(1));
    states, actions := Extend(states, actions, UserFlagOnly(1));
    states, actions := Extend(states, actions, DialSucceeds);
    states, actions := Extend(states, actions, Install);
  }

  /** A Wire.Close during the session handshake offers on the channel of no goroutine, and never returns. */
  lemma CloseDuringHandshake() returns (states: seq<State>, actions: seq<Action>)
    ensures IsRun(states, actions)
    ensures var t := states[|states| - 1]; t.loop == Opening && UserAt(t, 1) == UserOffering(0) && CloseDoomed(t, 1)
  {
    hide IsRun;
    states, actions := Undialled();
    states, actions := Extend(states, actions, LoopCheck(false));
    states, actions := Extend(states, actions, LoopReset);
    states, actions := Extend(states, actions, DialSucceeds);
    states, actions := Extend(states, actions, UserCheckConn(1));
    states, actions := Extend(states, actions, UserCheckClosed(1));
    states, actions := Extend(states, actions, UserMark(1));
    states, actions := Extend(states, actions, UserOffer(1));
  }

  const CONNECTED := State(false, true, Waiting, {0}, [Epoch(S.INITIAL, true, Quiet, Listening, 0)], map[])

  lemma Connected() returns (states: seq<State>, actions: seq<Action>)
    ensures IsRun(states, actions) && states[|states| - 1] == CONNECTED
  {
    hide IsRun;
    states, actions := Undialled();
    states, actions := Extend(states, actions, LoopCheck(false));
    states, actions := Extend(states, actions, LoopReset);
    states, actions := Extend(states, actions, DialSucceeds);
    states, actions := Extend(states, actions, Install);
    states, actions := Extend(states, actions, RegisterSession(0));
  }

  const IN_PASS := State(true, true, Waiting, {0}, [Epoch(S.INITIAL, true, Quiet, Closing(User(1), {0}), 0)],
                         map[1 := UserAwaiting])

  lemma InPass() returns (states: seq<State>, actions: seq<Action>)
    ensures IsRun(states, actions) && states[|states| - 1] == IN_PASS
  {
    hide IsRun;
    states, actions := Connected();
    states, actions := Extend(states, actions, UserCheckConn(1));
    states, actions := Extend(states, actions, UserCheckClosed(1));
    states, actions := Extend(states, actions, UserMark(1));
    states, actions := Extend(states, actions, UserOffer(1));
    states, actions := Extend(states, actions, TakeFromUser(0, 1));
    states, actions := Extend(states, actions, Snapshot(0));
    assert states[|states| - 1].users == map[1 := UserAwaiting];
  }

  const BOTH_PAST_CHECK := IN_PASS.(epochs := [Epoch(
    S.INITIAL.(callers := map[WIRE_CALLER := S.PastCheck, 7 := S.PastCheck]), true, Quiet, Closing(User(1), {0}), 0)])

  lemma BothPastCheck() returns (states: seq<State>, actions: seq<Action>)
    ensures IsRun(states, actions) && states[|states| - 1] == BOTH_PAST_CHECK
  {
    hide IsRun;
    states, actions := InPass();
    states, actions := Extend(states, actions, CallClose(0, 0));
    states, actions := Extend(states, actions, SessionStep(0, S.Check(7)));
    assert states[|states| - 1].epochs[0].sess.callers == map[WIRE_CALLER := S.PastCheck, 7 := S.PastCheck];
  }

  /**
   On a live connection: the goroutine, closing the session for a Wire.Close, and one other caller of
   Session.Close both pass its check, and the other one is served. Then neither Wire.Close nor Connect
   ever returns.
   */
  lemma CloseLosesRace() returns (states: seq<State>, actions: seq<Action>)
    ensures IsRun(states, actions)
    ensures var t := states[|states| - 1];
      && !Stranded(t) && PassStuck(t) && UserAt(t, 1) == UserAwaiting && CloseDoomed(t, 1)
      && S.CallerAt(t.epochs[0].sess, 7) == S.Waiting
  {
    hide IsRun;
    states, actions := BothPastCheck();
    states, actions := Extend(states, actions, SessionStep(0, S.Mark(WIRE_CALLER)));
    states, actions := Extend(states, actions, SessionStep(0, S.Mark(7)));
    states, actions := Extend(states, actions, SessionStep(0, S.Offer(7)));
  }

  const DRAINED_SESSION := S.State(true, map[7 := S.Waiting], S.Drained(7), S.INITIAL.book, false, 0, 0, 0)

  lemma SessionDrained() returns (states: seq<State>, actions: seq<Action>)
    ensures IsRun(states, actions)
    ensures states[|states| - 1] == CONNECTED.(epochs := [Epoch(DRAINED_SESSION, true, Quiet, Listening, 0)])
  {
    hide IsRun;
    states, actions := Connected();
    states, actions := Extend(states, actions, SessionStep(0, S.Check(7)));
    states, actions := Extend(states, actions, SessionStep(0, S.Mark(7)));
    states, actions := Extend(states, actions, SessionStep(0, S.Offer(7)));
    states, actions := Extend(states, actions, SessionStep(0, S.EndDrain));
    assert states[|states| - 1].epochs[0].sess.callers == map[7 := S.Waiting];
  }

  const CLOSED_SESSION := S.State(true, map[7 := S.Unregistered], S.Exited(7), S.INITIAL.book, true, 1, 1, 0)
  const UNREGISTERED := State(false, true, Waiting, {}, [Epoch(CLOSED_SESSION, true, Deciding, Listening, 0)], map[])

  lemma Unregistered() returns (states: seq<State>, actions: seq<Action>)
    ensures IsRun(states, actions) && states[|states| - 1] == UNREGISTERED
  {
    hide IsRun;
    states, actions := SessionDrained();
    states, actions := Extend(states, actions, SessionStep(0, S.CloseConn));
    states, actions := Extend(states, actions, SessionStep(0, S.Answer));
    states, actions := Extend(states, actions, SessionStep(0, S.UnregisterSession(7)));
    assert states[|states| - 1].epochs[0].sess.callers == map[7 := S.Unregistered];
  }

  /** A Session.Close looks at the flag, a Wire.Close sets it and is taken: Session.Close never returns. */
  lemma RemovalLosesRace() returns (states: seq<State>, actions: seq<Action>)
    ensures IsRun(states, actions)
    ensures var t := states[|states| - 1]; |t.epochs| == 1 && RemovalDoomed(t, 0) && t.epochs[0].shut == Taken(User(1))
  {
    hide IsRun;
    states, actions := Unregistered();
    states, actions := Extend(states, actions, Decide(0));
    states, actions := Extend(states, actions, UserCheckConn(1));
    states, actions := Extend(states, actions, UserCheckClosed(1));
    states, actions := Extend(states, actions, UserMark(1));
    states, actions := Extend(states, actions, UserOffer(1));
    states, actions := Extend(states, actions, TakeFromUser(0, 1));
  }
}
