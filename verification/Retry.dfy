/** Reconnecting: options.go's backoff policy, and the connect loop of wirenet.go that asks it how long to wait. */
module Retry {
  import opened Bytes

  /** Below this magnitude a duration times a power of two is exact in a float64. */
  const FLOAT_EXACT: nat := 0x20_0000_0000_0000

  predicate Exact(min: int) {
    -(FLOAT_EXACT as int) < min < FLOAT_EXACT
  }

  predicate Int64(x: int) {
    -(INT64_LIMIT as int) <= x < INT64_LIMIT
  }

  /**
   time.Duration of a float. Out of range Go leaves it to the platform: amd64 yields the least int64, as
   here; where it yields the largest instead, DefaultRetryPolicy answers the same.
   */
  function ToDuration(m: int): (d: int)
    ensures Int64(d)
  {
    if Int64(m) then m else -(INT64_LIMIT as int)
  }

  /** Powers of two from here on are infinite in a float64; infinity times zero is NaN, which equals no wait. */
  const FLOAT_INFINITE: nat := 1024

  /** DefaultRetryPolicy. */
  function DefaultPolicy(min: int, max: int, attempt: nat): int
    requires Exact(min) && Int64(max)
  {
    if min == 0 && attempt >= FLOAT_INFINITE then max
    else
      var m := Pow2(attempt) * min;
      var wait := ToDuration(m);
      if wait != m || wait > max then max else wait
  }

  /** The policy is doubling, saturated at the cap: no overflow shows. */
  lemma PolicySaturates(min: int, max: int, attempt: nat)
    requires 0 < min < FLOAT_EXACT && Int64(max)
    ensures DefaultPolicy(min, max, attempt) == if Pow2(attempt) * min <= max then Pow2(attempt) * min else max
  {
  }

  lemma {:induction false} Pow2Monotone(a: nat, b: nat)
    requires a <= b
    ensures Pow2(a) <= Pow2(b)
    decreases b
  {
    if a == b {
    } else {
      Pow2Monotone(a, b - 1);
    }
  }

  /** For any minimum, negative or zero too: the wait is the doubled minimum or the cap, and never more than the cap. */
  lemma PolicyCapped(min: int, max: int, attempt: nat)
    requires Exact(min) && Int64(max)
    ensures DefaultPolicy(min, max, attempt) <= max
    ensures DefaultPolicy(min, max, attempt) != max ==> DefaultPolicy(min, max, attempt) == Pow2(attempt) * min
    ensures min == 0 && max >= 0 && attempt < FLOAT_INFINITE ==> DefaultPolicy(min, max, attempt) == 0
  {
    hide Pow2;
    assert min == 0 ==> Pow2(attempt) * min == 0;
  }

  /** Later attempts never wait less. */
  lemma PolicyMonotone(min: int, max: int, a: nat, b: nat)
    requires 0 < min < FLOAT_EXACT && Int64(max)
    requires a <= b
    ensures DefaultPolicy(min, max, a) <= DefaultPolicy(min, max, b)
  {
    PolicySaturates(min, max, a);
    PolicySaturates(min, max, b);
    Pow2Monotone(a, b);
    ScaledMonotone(Pow2(a), Pow2(b), min);
  }

  /** How often `min` doubles before it exceeds the cap. */
  function Doublings(min: int, max: int): (n: nat)
    requires min > 0
    decreases if min <= max then max - min + 1 else 0
  {
    if min > max then 0 else 1 + Doublings(2 * min, max)
  }

  /** The attempts below the cap are those that count as doublings. */
  lemma {:induction false} DoublingsExact(min: int, max: int, n: nat)
    requires min > 0
    ensures Pow2(n) * min <= max <==> n < Doublings(min, max)
    decreases n
  {
    if min > max {
      Pow2Monotone(0, n);
      ScaledMonotone(1, Pow2(n), min);
    } else if n > 0 {
      DoublingsExact(2 * min, max, n - 1);
      assert Pow2(n) * min == Pow2(n - 1) * (2 * min);
    }
  }

  function TotalDelay(min: int, max: int, attempts: nat): int
    requires Exact(min) && Int64(max)
  {
    if attempts == 0 then 0
    else TotalDelay(min, max, attempts - 1) + DefaultPolicy(min, max, attempts - 1)
  }

  /** The delays of the first attempts: doubling up to the cap, then the cap for every attempt left. */
  lemma {:induction false} TotalDelayClosedForm(min: int, max: int, attempts: nat)
    requires 0 < min < FLOAT_EXACT && Int64(max)
    ensures var d := Min(attempts, Doublings(min, max));
      TotalDelay(min, max, attempts) == (Pow2(d) - 1) * min + (attempts - d) * max
    decreases attempts
  {
    hide DefaultPolicy, Doublings, Pow2;
    var c := Doublings(min, max);
    if attempts == 0 {
      Pow2Step(0);
    } else {
      var n := attempts - 1;
      TotalDelayClosedForm(min, max, n);
      PolicySaturates(min, max, n);
      DoublingsExact(min, max, n);
      if n < c {
        Pow2Step(n);
        AddDoubled(Pow2(n), min);
      } else {
        AddOne(n - c, max);
      }
    }
  }

  lemma Pow2Step(n: nat)
    ensures Pow2(0) == 1 && Pow2(n + 1) == 2 * Pow2(n)
  {
  }

  lemma AddDoubled(p: int, min: int)
    ensures (p - 1) * min + p * min == (2 * p - 1) * min
  {
  }

  lemma AddOne(k: int, max: int)
    ensures k * max + max == (k + 1) * max
  {
  }

  /** What happens when the loop dials, and whether the wire is closed by the time it looks again. */
  datatype Outcome =
    | ConnRefused(closed: bool)   // a dial error that names a refused connection
    | DialError                   // any other dial error
    | SetupError                  // connected, but yamux or the session handshake failed
    | Served(closed: bool)        // a session ran until waitCh was closed

  datatype ConnectError = Refusal | Dialling | Setup

  /** The loop's trace: attempt numbers of its dials, and how it stands; `blocked` if it dials still. */
  datatype Trace = Trace(dials: seq<nat>, waits: seq<nat>, counter: nat, conn: bool, err: Option<ConnectError>, blocked: bool)

  /** One round of the loop: it ends it, or leads on to the next with these waits and this state. */
  datatype Round = Ended(t: Trace) | Goes(waits: seq<nat>, c: nat, closed: bool, conn: bool, err: Option<ConnectError>)

  function ConnectRound(c: nat, retryMax: nat, closed: bool, conn: bool, err: Option<ConnectError>,
                        outcomes: seq<Outcome>): (r: Round)
    ensures r.Goes? ==> outcomes != []
  {
    if c >= retryMax || closed then Ended(Trace([], [], c, conn, err, false))
    else if outcomes == [] then Ended(Trace([c], [], c + 1, false, err, true))
    else
      match outcomes[0]
      case DialError => Ended(Trace([c], [], c + 1, false, Some(Dialling), false))
      case SetupError => Ended(Trace([c], [], 0, false, Some(Setup), false))
      case ConnRefused(closed') => Goes([c], c + 1, closed', false, Some(Refusal))
      case Served(closed') => Goes([], 0, closed', true, err)
  }

  /** acceptClient from counter `c`: `waits` lists the attempts whose delay the policy was asked for. */
  function Connect(c: nat, retryMax: nat, closed: bool, conn: bool, err: Option<ConnectError>, outcomes: seq<Outcome>): Trace
    decreases |outcomes|
  {
    match ConnectRound(c, retryMax, closed, conn, err, outcomes)
    case Ended(t) => t
    case Goes(waits, c', closed', conn', err') =>
      var t := Connect(c', retryMax, closed', conn', err', outcomes[1..]);
      t.(dials := [c] + t.dials, waits := waits + t.waits)
  }

  function Upto(a: nat, b: nat): (s: seq<nat>)
    requires a <= b
    ensures |s| == b - a && forall k :: 0 <= k < |s| ==> s[k] == a + k
  {
    seq(b - a, k => a + k)
  }

  function Refusals(n: nat): (s: seq<Outcome>)
    ensures |s| == n && forall k :: 0 <= k < |s| ==> s[k] == ConnRefused(false)
  {
    seq(n, _ => ConnRefused(false))
  }

  /** Every dial refused on an open wire: the attempts run up to retryMax, each is waited for, and then Connect gives up. */
  lemma {:induction false} RefusedRun(c: nat, retryMax: nat, conn: bool, err: Option<ConnectError>)
    requires c <= retryMax
    ensures Connect(c, retryMax, false, conn, err, Refusals(retryMax - c))
         == Trace(Upto(c, retryMax), Upto(c, retryMax), retryMax,
                  if c < retryMax then false else conn, if c < retryMax then Some(Refusal) else err, false)
    decreases retryMax - c
  {
    if c == retryMax {
    } else {
      assert Refusals(retryMax - c)[1..] == Refusals(retryMax - (c + 1));
      RefusedRun(c + 1, retryMax, false, Some(Refusal));
      assert [c] + Upto(c + 1, retryMax) == Upto(c, retryMax);
    }
  }

  /** Dials exactly retryMax times, and waits the closed-form total of the default policy. */
  lemma RefusedRunDelay(retryMax: nat, min: int, max: int, outcomes: seq<Outcome>)
    requires 0 < min < FLOAT_EXACT && Int64(max)
    requires outcomes == Refusals(retryMax)
    ensures var t := Connect(0, retryMax, false, false, None, outcomes);
      && t.dials == Upto(0, retryMax) && |t.dials| == retryMax && t.counter == retryMax
      && SumOver(t.waits, min, max) ==
           (Pow2(Min(retryMax, Doublings(min, max))) - 1) * min + (retryMax - Min(retryMax, Doublings(min, max))) * max
  {
    RefusedRun(0, retryMax, false, None);
    SumUpto(retryMax, min, max);
    TotalDelayClosedForm(min, max, retryMax);
  }

  function SumOver(attempts: seq<nat>, min: int, max: int): int
    requires Exact(min) && Int64(max)
  {
    if attempts == [] then 0
    else SumOver(attempts[..|attempts| - 1], min, max) + DefaultPolicy(min, max, attempts[|attempts| - 1])
  }

  lemma {:induction false} SumUpto(n: nat, min: int, max: int)
    requires Exact(min) && Int64(max)
    ensures SumOver(Upto(0, n), min, max) == TotalDelay(min, max, n)
    decreases n
  {
    if n == 0 {
    } else {
      assert Upto(0, n)[..n - 1] == Upto(0, n - 1);
      SumUpto(n - 1, min, max);
    }
  }

  /** Failed dials since the last served connection, counted on from `c`, after `i` outcomes. */
  function Failures(c: nat, outcomes: seq<Outcome>, i: nat): nat
    requires i <= |outcomes|
    decreases i
  {
    if i == 0 then c
    else if outcomes[i - 1].Served? then 0
    else Failures(c, outcomes, i - 1) + 1
  }

  lemma {:induction false} FailuresTail(c: nat, outcomes: seq<Outcome>, i: nat)
    requires 0 < i <= |outcomes|
    ensures Failures(c, outcomes, i)
         == Failures(if outcomes[0].Served? then 0 else c + 1, outcomes[1..], i - 1)
    decreases i
  {
    if i == 1 {
    } else {
      FailuresTail(c, outcomes, i - 1);
      assert outcomes[1..][i - 2] == outcomes[i - 1];
    }
  }

  /** In any run, each dial's attempt number is the number of failures since the last connection. */
  lemma {:induction false} AttemptsCountFailures(c: nat, retryMax: nat, closed: bool, conn: bool,
                                                 err: Option<ConnectError>, outcomes: seq<Outcome>, i: nat)
    requires i < |Connect(c, retryMax, closed, conn, err, outcomes).dials|
    ensures i <= |outcomes|
    ensures Connect(c, retryMax, closed, conn, err, outcomes).dials[i] == Failures(c, outcomes, i) < retryMax
    decreases |outcomes|
  {
    if i == 0 {
    } else {
      var rest := outcomes[1..];
      match outcomes[0] {
        case ConnRefused(closed') =>
          AttemptsCountFailures(c + 1, retryMax, closed', false, Some(Refusal), rest, i - 1);
        case Served(closed') =>
          AttemptsCountFailures(0, retryMax, closed', true, err, rest, i - 1);
      }
      FailuresTail(c, outcomes, i);
    }
  }

  /** The error that refused dials among the first `n` outcomes have left, over `err` from before. */
  function RefusalIn(err: Option<ConnectError>, outcomes: seq<Outcome>, n: nat): Option<ConnectError>
    requires n <= |outcomes|
  {
    if exists j :: 0 <= j < n && outcomes[j].ConnRefused? then Some(Refusal) else err
  }

  lemma RefusalTail(err: Option<ConnectError>, outcomes: seq<Outcome>, n: nat)
    requires 0 < n <= |outcomes|
    ensures RefusalIn(err, outcomes, n)
         == RefusalIn(if outcomes[0].ConnRefused? then Some(Refusal) else err, outcomes[1..], n - 1)
  {
    assert forall j :: 0 < j < n ==> outcomes[j] == outcomes[1..][j - 1];
    assert forall j :: 0 <= j < n - 1 ==> outcomes[1..][j] == outcomes[j + 1];
  }

  /**
   How a run ends, from the last outcome it dialled for. A failed setup, and any dial error but a
   refused connection, ends it there with that error. A refused connection ends it with the refusal and
   a served one with the last refusal, or `err` if there was none; and only when the wire was closed or
   no attempt was left. Every outcome before the last one was one of these two on an open wire.
   */
  lemma {:induction false} EndsByLast(c: nat, retryMax: nat, closed: bool, conn: bool, err: Option<ConnectError>,
                                      outcomes: seq<Outcome>)
    ensures var t := Connect(c, retryMax, closed, conn, err, outcomes);
      && (t.dials == [] <==> c >= retryMax || closed)
      && (t.dials == [] ==> t == Trace([], [], c, conn, err, false))
      && (t.dials != [] && !t.blocked ==> |t.dials| <= |outcomes|)
      && (t.blocked ==> |t.dials| == |outcomes| + 1)
      && forall j :: 0 <= j < |t.dials| - 1 ==> outcomes[j] == ConnRefused(false) || outcomes[j] == Served(false)
    ensures var t := Connect(c, retryMax, closed, conn, err, outcomes);
      t.blocked ==>
        t.err == RefusalIn(err, outcomes, |outcomes|) && t.counter == t.dials[|outcomes|] + 1 && !t.conn
    ensures var t := Connect(c, retryMax, closed, conn, err, outcomes);
      t.dials != [] && !t.blocked ==>
        var k := |t.dials|;
        match outcomes[k - 1]
        case SetupError => t.err == Some(Setup) && t.counter == 0 && !t.conn
        case DialError => t.err == Some(Dialling) && t.counter == t.dials[k - 1] + 1 && !t.conn
        case ConnRefused(closed') =>
          t.err == Some(Refusal) && t.counter == t.dials[k - 1] + 1 && !t.conn && (closed' || t.counter >= retryMax)
        case Served(closed') =>
          t.err == RefusalIn(err, outcomes, k) && t.counter == 0 && t.conn && (closed' || retryMax == 0)
    decreases |outcomes|
  {
    hide Connect, RefusalIn;
    ConnectUnfold(c, retryMax, closed, conn, err, outcomes);
    match ConnectRound(c, retryMax, closed, conn, err, outcomes) {
      case Ended(_) =>
        NoRefusal(err, outcomes);
      case Goes(waits, c', closed', conn', err') =>
        var tail := outcomes[1..];
        EndsByLast(c', retryMax, closed', conn', err', tail);
        var u := Connect(c', retryMax, closed', conn', err', tail);
        NoRefusal(err', tail);
        if u.dials != [] && !u.blocked {
          RefusalTail(err, outcomes, |u.dials| + 1);
        } else {
          RefusalTail(err, outcomes, if u.blocked then |outcomes| else 1);
        }
    }
  }

  /** The dials that were refused. */
  function RefusedDials(dials: seq<nat>, outcomes: seq<Outcome>): seq<nat> {
    if dials == [] || outcomes == [] then []
    else (if outcomes[0].ConnRefused? then [dials[0]] else []) + RefusedDials(dials[1..], outcomes[1..])
  }

  /** The loop waits after every refused dial, for the delay of that attempt, and after nothing else. */
  lemma {:induction false} WaitsForRefusals(c: nat, retryMax: nat, closed: bool, conn: bool, err: Option<ConnectError>,
                                            outcomes: seq<Outcome>)
    ensures var t := Connect(c, retryMax, closed, conn, err, outcomes); t.waits == RefusedDials(t.dials, outcomes)
    decreases |outcomes|
  {
    hide Connect;
    ConnectUnfold(c, retryMax, closed, conn, err, outcomes);
    match ConnectRound(c, retryMax, closed, conn, err, outcomes) {
      case Ended(t) =>
        assert t.dials == [] || t.dials[1..] == [];
      case Goes(waits, c', closed', conn', err') =>
        WaitsForRefusals(c', retryMax, closed', conn', err', outcomes[1..]);
        var u := Connect(c', retryMax, closed', conn', err', outcomes[1..]);
        assert ([c] + u.dials)[1..] == u.dials;
    }
  }

  lemma NoRefusal(err: Option<ConnectError>, outcomes: seq<Outcome>)
    ensures RefusalIn(err, outcomes, 0) == err
  {
  }

  /** The client's fields that the connect loop updates. */
  class Client {
    var connCounter: nat
    var conn: bool
    var closed: bool
    const retryMax: nat

    constructor (retryMax: nat)
      ensures connCounter == 0 && !conn && !closed && this.retryMax == retryMax
    {
      connCounter, conn, closed := 0, false, false;
      this.retryMax := retryMax;
    }

    /** acceptClient, against given outcomes; it returns `blocked` when they run out during a dial. */
    method AcceptClient(outcomes: seq<Outcome>)
      returns (err: Option<ConnectError>, blocked: bool, dials: seq<nat>, waits: seq<nat>)
      modifies this
      ensures Trace(dials, waits, connCounter, conn, err, blocked)
           == Connect(old(connCounter), retryMax, old(closed), old(conn), None, outcomes)
    {
      hide Connect, Before;
      err, blocked, dials, waits := None, false, [], [];
      var i := 0;
      ghost var whole := Connect(connCounter, retryMax, closed, conn, None, outcomes);
      assert outcomes[0..] == outcomes;
      NothingBefore(whole);
      while true
        invariant i <= |outcomes|
        invariant whole == Before(dials, waits, Connect(connCounter, retryMax, closed, conn, err, outcomes[i..]))
        decreases |outcomes| - i
      {
        ConnectUnfold(connCounter, retryMax, closed, conn, err, outcomes[i..]);
        ghost var c, rest := connCounter, outcomes[i..];
        ghost var dialsSoFar, waitsSoFar := dials, waits;
        BeforeLast(dials, waits, c, Connect(c, retryMax, closed, conn, err, rest));
        var attemptNum := connCounter;
        if attemptNum >= retryMax || closed {
          break;
        }
        connCounter := connCounter + 1;
        conn := false;
        dials := dials + [attemptNum];
        if i == |outcomes| {
          blocked := true;
          break;
        }
        assert outcomes[i..][1..] == outcomes[i + 1..];
        match outcomes[i]
        case DialError =>
          err := Some(Dialling);
          break;
        case SetupError =>
          connCounter := 0;
          err := Some(Setup);
          break;
        case ConnRefused(nowClosed) =>
          err := Some(Refusal);
          waits := waits + [attemptNum];
          closed := nowClosed;
          i := i + 1;
          BeforeMore(dialsSoFar, waitsSoFar, [c], [c], Connect(connCounter, retryMax, closed, conn, err, outcomes[i..]));
        case Served(nowClosed) =>
          conn := true;
          connCounter := 0;
          closed := nowClosed;
          i := i + 1;
          assert waitsSoFar + [] == waits;
          BeforeMore(dialsSoFar, waitsSoFar, [c], [], Connect(connCounter, retryMax, closed, conn, err, outcomes[i..]));
      }
    }
  }

  ghost function Before(dials: seq<nat>, waits: seq<nat>, t: Trace): Trace {
    t.(dials := dials + t.dials, waits := waits + t.waits)
  }

  lemma NothingBefore(t: Trace)
    ensures Before([], [], t) == t
  {
    assert [] + t.dials == t.dials && [] + t.waits == t.waits;
  }

  /** A trace of one dial or none ends the list. */
  lemma BeforeLast(dials: seq<nat>, waits: seq<nat>, c: nat, t: Trace)
    ensures t.waits == [] && (t.dials == [] || t.dials == [c]) ==>
      Before(dials, waits, t) == t.(dials := if t.dials == [] then dials else dials + [c], waits := waits)
  {
  }

  lemma BeforeMore(dials: seq<nat>, waits: seq<nat>, d: seq<nat>, w: seq<nat>, t: Trace)
    ensures Before(dials, waits, t.(dials := d + t.dials, waits := w + t.waits)) == Before(dials + d, waits + w, t)
  {
    Associative(dials, d, t.dials);
    Associative(waits, w, t.waits);
  }

  lemma ConnectUnfold(c: nat, retryMax: nat, closed: bool, conn: bool, err: Option<ConnectError>, outcomes: seq<Outcome>)
    ensures Connect(c, retryMax, closed, conn, err, outcomes) ==
      match ConnectRound(c, retryMax, closed, conn, err, outcomes)
      case Ended(t) => t
      case Goes(waits, c', closed', conn', err') =>
        var t := Connect(c', retryMax, closed', conn', err', outcomes[1..]);
        t.(dials := [c] + t.dials, waits := waits + t.waits)
  {
  }
}
