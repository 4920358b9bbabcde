/**
 session.go: any number of concurrent Close callers and the one shutdown goroutine, as interleaved
 atomic steps. The check of the closed flag and its setting are two steps, as in the source.
 */
module SessionClose {
  import opened StreamCounter

  type CallerId = nat

  /** Where a caller of Close stands. */
  datatype Caller =
    | Outside          // not in Close
    | PastCheck        // saw the flag unset
    | Sending          // set the flag; offers its reply channel on closeCh
    | Waiting          // the offer was taken; waits for the reply
    | Replied          // has the reply
    | Unregistered     // has called wire.unregisterSession
    | Finished         // has launched the close hook and returned
    | Rejected         // returned ErrSessionClosed

  /** Where the shutdown goroutine stands, and for which caller. */
  datatype Worker =
    | Receiving
    | Draining(client: CallerId)
    | Drained(client: CallerId)
    | ConnDown(client: CallerId)
    | Exited(client: CallerId)

  datatype State = State(
    closed: bool,
    callers: map<CallerId, Caller>,
    worker: Worker,
    book: Book,
    connClosed: bool,
    connCloses: nat,
    unregisters: nat,
    hooks: nat
  )

  const INITIAL := State(false, map[], Receiving, EMPTY_BOOK, false, 0, 0, 0)

  datatype Action =
    | Check(c: CallerId)
    | Mark(c: CallerId)
    | Offer(c: CallerId)
    | EndDrain
    | CloseConn
    | Answer
    | UnregisterSession(c: CallerId)
    | LaunchHook(c: CallerId)
    | OpenStream(id: StreamId)
    | CloseStream(id: StreamId)
    | ConnLost

  function CallerAt(s: State, c: CallerId): Caller {
    if c in s.callers then s.callers[c] else Outside
  }

  predicate Enabled(s: State, a: Action) {
    match a
    case Check(c) => CallerAt(s, c) == Outside
    case Mark(c) => CallerAt(s, c) == PastCheck
    case Offer(c) => CallerAt(s, c) == Sending && s.worker == Receiving
    case EndDrain => s.worker.Draining? && s.book.active <= 0
    case CloseConn => s.worker.Drained?
    case Answer => s.worker.ConnDown?
    case UnregisterSession(c) => CallerAt(s, c) == Replied
    case LaunchHook(c) => CallerAt(s, c) == Unregistered
    case OpenStream(id) => id !in s.book.open
    case CloseStream(_) => true
    case ConnLost => true
  }

  /** The effect of a step. CloseStream is anyone's stream.Close, the forced pass of a timed-out drain included. */
  function Step(s: State, a: Action): State
    requires Enabled(s, a)
  {
    match a
    case Check(c) => s.(callers := s.callers[c := if s.closed then Rejected else PastCheck])
    case Mark(c) => s.(closed := true, callers := s.callers[c := Sending])
    case Offer(c) => s.(callers := s.callers[c := Waiting], worker := Draining(c))
    case EndDrain => s.(worker := Drained(s.worker.client))
    case CloseConn =>
      s.(worker := ConnDown(s.worker.client), connClosed := true,
         connCloses := if s.connClosed then s.connCloses else s.connCloses + 1)
    case Answer => s.(worker := Exited(s.worker.client), callers := s.callers[s.worker.client := Replied])
    case UnregisterSession(c) => s.(unregisters := s.unregisters + 1, callers := s.callers[c := Unregistered])
    case LaunchHook(c) => s.(hooks := s.hooks + 1, callers := s.callers[c := Finished])
    case OpenStream(id) => s.(book := Apply(s.book, Register(id)))
    case CloseStream(id) => s.(book := Apply(s.book, Unregister(id)))
    case ConnLost => s.(connClosed := true)
  }

  /** The caller's request was taken by the goroutine. */
  predicate Served(p: Caller) {
    p.Waiting? || p.Replied? || p.Unregistered? || p.Finished?
  }

  /** The served caller is the worker's client, and it is where the worker's progress puts it. */
  ghost predicate ClientFits(s: State) {
    match s.worker
    case Receiving => true
    case Exited(c) => var p := CallerAt(s, c); p.Replied? || p.Unregistered? || p.Finished?
    case _ => CallerAt(s, s.worker.client) == Waiting
  }

  ghost predicate OnlyClientServed(s: State) {
    forall c :: Served(CallerAt(s, c)) ==> !s.worker.Receiving? && s.worker.client == c
  }

  ghost predicate Inv(s: State) {
    && ClientFits(s)
    && OnlyClientServed(s)
    && Sound(s.book)
    && (forall c :: CallerAt(s, c) != Outside && CallerAt(s, c) != PastCheck ==> s.closed)
    && s.connCloses <= (if s.worker.ConnDown? || s.worker.Exited? then 1 else 0)
    && (s.worker.ConnDown? || s.worker.Exited? ==> s.connClosed)
    && s.unregisters == (if s.worker.Exited? && !CallerAt(s, s.worker.client).Replied? then 1 else 0)
    && s.hooks == (if s.worker.Exited? && CallerAt(s, s.worker.client).Finished? then 1 else 0)
  }

  lemma InitialInv()
    ensures Inv(INITIAL)
  {
  }

  /** The caller that a step moves, if any. */
  function Moved(s: State, a: Action): set<CallerId>
    requires Enabled(s, a)
  {
    match a
    case Check(c) => {c}
    case Mark(c) => {c}
    case Offer(c) => {c}
    case UnregisterSession(c) => {c}
    case LaunchHook(c) => {c}
    case Answer => {s.worker.client}
    case _ => {}
  }

  lemma OthersStay(s: State, a: Action)
    requires Enabled(s, a)
    ensures forall c :: c !in Moved(s, a) ==> CallerAt(Step(s, a), c) == CallerAt(s, c)
  {
  }

  /** Stream steps and a lost connection move no caller. */
  lemma BookStepKeepsInv(s: State, a: Action)
    requires Inv(s) && Enabled(s, a)
    requires a.OpenStream? || a.CloseStream? || a.ConnLost?
    ensures Inv(Step(s, a))
  {
    hide Sound, Apply;
    var t := Step(s, a);
    assert forall c :: CallerAt(t, c) == CallerAt(s, c);
    match a
    case OpenStream(id) => ApplySound(s.book, Register(id));
    case CloseStream(id) => ApplySound(s.book, Unregister(id));
    case ConnLost =>
  }

  lemma CallerStepKeepsInv(s: State, a: Action)
    requires Inv(s) && Enabled(s, a)
    requires !a.OpenStream? && !a.CloseStream? && !a.ConnLost?
    ensures Inv(Step(s, a))
  {
    hide Sound;
    OthersStay(s, a);
  }

  lemma StepKeepsInv(s: State, a: Action)
    requires Inv(s) && Enabled(s, a)
    ensures Inv(Step(s, a))
  {
    hide Inv, Step, Enabled;
    if a.OpenStream? || a.CloseStream? || a.ConnLost? {
      BookStepKeepsInv(s, a);
    } else {
      CallerStepKeepsInv(s, a);
    }
  }

  /** The states along a sequence of enabled steps. */
  ghost predicate IsPath(states: seq<State>, actions: seq<Action>) {
    && |states| == |actions| + 1
    && forall i :: 0 <= i < |actions| ==> Enabled(states[i], actions[i]) && states[i + 1] == Step(states[i], actions[i])
  }

  /** An interleaving: a path from the initial state. */
  ghost predicate IsRun(states: seq<State>, actions: seq<Action>) {
    IsPath(states, actions) && states[0] == INITIAL
  }

  lemma {:induction false} PathKeepsInv(states: seq<State>, actions: seq<Action>, i: nat)
    requires IsPath(states, actions) && i < |states| && Inv(states[0])
    ensures Inv(states[i])
    decreases i
  {
    hide Inv, Step, Enabled;
    if i == 0 {
    } else {
      PathKeepsInv(states, actions, i - 1);
      StepKeepsInv(states[i - 1], actions[i - 1]);
    }
  }

  lemma RunKeepsInv(states: seq<State>, actions: seq<Action>, i: nat)
    requires IsRun(states, actions) && i < |states|
    ensures Inv(states[i])
  {
    InitialInv();
    PathKeepsInv(states, actions, i);
  }

  /**
   In every interleaving: at most one request is served; the goroutine closes the connection, the
   session is unregistered and the hook launched at most once each, in that order; and the counter
   never exceeds the open streams.
   */
  lemma CloseHappensOnce(states: seq<State>, actions: seq<Action>, i: nat)
    requires IsRun(states, actions) && i < |states|
    ensures forall c, d :: Served(CallerAt(states[i], c)) && Served(CallerAt(states[i], d)) ==> c == d
    ensures states[i].connCloses <= 1 && states[i].hooks <= states[i].unregisters <= 1
    ensures states[i].unregisters == 1 ==> states[i].connClosed && states[i].worker.Exited? && states[i].closed
    ensures states[i].book.active <= |states[i].book.open|
  {
    RunKeepsInv(states, actions, i);
    var s := states[i];
    if s.unregisters == 1 {
      assert CallerAt(s, s.worker.client) != Outside;
    }
  }

  predicate PastDrain(w: Worker) {
    w.Drained? || w.ConnDown? || w.Exited?
  }

  /** When the drain ended in a run, and that the counter was zero then. */
  lemma {:induction false} DrainEnded(states: seq<State>, actions: seq<Action>, n: nat) returns (i: nat)
    requires IsRun(states, actions) && n < |states|
    requires PastDrain(states[n].worker)
    ensures i < n && actions[i] == EndDrain && states[i].book.active == 0
    decreases n
  {
    i := n - 1;
    if PastDrain(states[n - 1].worker) {
      i := DrainEnded(states, actions, n - 1);
    }
  }

  predicate PastConn(w: Worker) {
    w.ConnDown? || w.Exited?
  }

  lemma {:induction false} ConnWentDown(states: seq<State>, actions: seq<Action>, n: nat) returns (i: nat)
    requires IsRun(states, actions) && n < |states|
    requires PastConn(states[n].worker)
    ensures i < n && actions[i] == CloseConn && states[i].worker.Drained?
    decreases n
  {
    i := n - 1;
    if PastConn(states[n - 1].worker) {
      i := ConnWentDown(states, actions, n - 1);
    }
  }

  /** Unregistering comes after the drain saw a zero counter, and after the connection was closed, in that order. */
  lemma UnregisterComesLast(states: seq<State>, actions: seq<Action>, n: nat) returns (drain: nat, conn: nat)
    requires IsRun(states, actions) && n < |actions|
    requires actions[n].UnregisterSession?
    ensures drain < conn < n
    ensures actions[drain] == EndDrain && states[drain].book.active == 0
    ensures actions[conn] == CloseConn && states[conn + 1].connClosed
  {
    RunKeepsInv(states, actions, n);
    assert Served(CallerAt(states[n], actions[n].c));
    conn := ConnWentDown(states, actions, n);
    drain := DrainEnded(states, actions, conn);
  }

  /** The caller saw the flag unset and went on. */
  predicate PastTheCheck(p: Caller) {
    !p.Outside? && !p.Rejected?
  }

  /** Its request has not been taken, and the goroutine, which takes one only, took another. */
  predicate Doomed(s: State, c: CallerId) {
    (CallerAt(s, c).PastCheck? || CallerAt(s, c).Sending?) && !s.worker.Receiving?
  }

  lemma DoomedStep(s: State, a: Action, c: CallerId)
    requires Inv(s) && Enabled(s, a) && Doomed(s, c)
    ensures Doomed(Step(s, a), c)
  {
    OthersStay(s, a);
  }

  lemma {:induction false} DoomedForever(states: seq<State>, actions: seq<Action>, n: nat, c: CallerId)
    requires IsPath(states, actions) && n < |states|
    requires Inv(states[0]) && Doomed(states[0], c)
    ensures Doomed(states[n], c)
    decreases n
  {
    hide Inv, Step, Enabled, Doomed;
    if n == 0 {
    } else {
      DoomedForever(states, actions, n - 1, c);
      PathKeepsInv(states, actions, n - 1);
      DoomedStep(states[n - 1], actions[n - 1], c);
    }
  }

  /** Where a caller that is past the check and not doomed stands on its way out. */
  function Ahead(s: State, c: CallerId): nat {
    match CallerAt(s, c)
    case PastCheck => 8
    case Sending => 7
    case Waiting => if s.worker.Draining? then 6 else if s.worker.Drained? then 5 else 4
    case Replied => 3
    case Unregistered => 2
    case _ => 0
  }

  /** A step that takes the caller on: its own, or the goroutine's, which closes a stream while it drains. */
  ghost function Onward(s: State, c: CallerId): Action {
    match CallerAt(s, c)
    case PastCheck => Mark(c)
    case Sending => Offer(c)
    case Waiting =>
      if s.worker.Draining? then
        if s.book.active <= 0 then EndDrain else CloseStream(AnyOf(s.book.open))
      else if s.worker.Drained? then CloseConn
      else Answer
    case Replied => UnregisterSession(c)
    case _ => LaunchHook(c)
  }

  ghost function AnyOf(ids: set<StreamId>): StreamId {
    if ids == {} then 0 else var id :| id in ids; id
  }

  lemma OnwardHelps(s: State, c: CallerId)
    requires Inv(s) && PastTheCheck(CallerAt(s, c)) && !CallerAt(s, c).Finished? && !Doomed(s, c)
    ensures Enabled(s, Onward(s, c))
    ensures var t := Step(s, Onward(s, c));
      && PastTheCheck(CallerAt(t, c)) && !Doomed(t, c)
      && (Ahead(t, c) < Ahead(s, c) || (Ahead(t, c) == Ahead(s, c) && t.book.active < s.book.active))
  {
  }

  lemma Prepend(s: State, a: Action, states: seq<State>, actions: seq<Action>)
    requires Enabled(s, a) && IsPath(states, actions) && states[0] == Step(s, a)
    ensures IsPath([s] + states, [a] + actions)
    ensures ([s] + states)[|[s] + states| - 1] == states[|states| - 1]
  {
    hide Enabled, Step;
    var ss, aa := [s] + states, [a] + actions;
    forall i | 0 <= i < |aa|
      ensures Enabled(ss[i], aa[i]) && ss[i + 1] == Step(ss[i], aa[i])
    {
      if i > 0 {
        assert ss[i] == states[i - 1] && ss[i + 1] == states[i] && aa[i] == actions[i - 1];
      }
    }
  }

  lemma {:induction false} WayOut(s: State, c: CallerId) returns (states: seq<State>, actions: seq<Action>)
    requires Inv(s) && PastTheCheck(CallerAt(s, c)) && !Doomed(s, c)
    ensures IsPath(states, actions) && states[0] == s
    ensures CallerAt(states[|states| - 1], c) == Finished
    decreases Ahead(s, c), s.book.active
  {
    hide Inv, Step, Enabled, Doomed, Onward, Ahead;
    if CallerAt(s, c).Finished? {
      states, actions := [s], [];
    } else {
      var a := Onward(s, c);
      OnwardHelps(s, c);
      StepKeepsInv(s, a);
      var rest, more := WayOut(Step(s, a), c);
      states, actions := [s] + rest, [a] + more;
      Prepend(s, a, rest, more);
    }
  }

  /** Some continuation lets the caller return. */
  ghost predicate MayReturn(s: State, c: CallerId) {
    exists states, actions ::
      IsPath(states, actions) && states[0] == s && CallerAt(states[|states| - 1], c) == Finished
  }

  /**
   The price of the gap between check and set, exactly: in every reachable state a caller past the
   check can still return if and only if it is not doomed, that is unless its request has yet to be
   taken and the goroutine has taken another.
   */
  lemma ReturnsExactly(states: seq<State>, actions: seq<Action>, i: nat, c: CallerId)
    requires IsRun(states, actions) && i < |states|
    requires PastTheCheck(CallerAt(states[i], c))
    ensures MayReturn(states[i], c) <==> !Doomed(states[i], c)
  {
    hide Inv, Step, Enabled;
    RunKeepsInv(states, actions, i);
    var s := states[i];
    if Doomed(s, c) {
      forall ss, aa | IsPath(ss, aa) && ss[0] == s
        ensures CallerAt(ss[|ss| - 1], c) != Finished
      {
        DoomedForever(ss, aa, |ss| - 1, c);
      }
    } else {
      var ss, aa := WayOut(s, c);
    }
  }

  /** Such a caller exists: both check before either sets the flag. */
  lemma TwoCallersPassTheCheck()
    returns (states: seq<State>, actions: seq<Action>)
    ensures IsRun(states, actions)
    ensures var last := states[|states| - 1];
      CallerAt(last, 1) == Waiting && CallerAt(last, 2) == Sending && last.worker == Draining(1) && Doomed(last, 2)
  {
    actions := [Check(1), Check(2), Mark(1), Mark(2), Offer(1)];
    var s1 := Step(INITIAL, Check(1));
    var s2 := Step(s1, Check(2));
    var s3 := Step(s2, Mark(1));
    var s4 := Step(s3, Mark(2));
    states := [INITIAL, s1, s2, s3, s4, Step(s4, Offer(1))];
  }
}
