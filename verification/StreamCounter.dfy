/** session.go: the map of open streams, the active-stream counter, and the drain that waits for the counter. */
module StreamCounter {

  type StreamId = nat

  /** The bookkeeping as a value: the keys of the stream map, and the counter. */
  datatype Book = Book(open: set<StreamId>, active: nat)

  const EMPTY_BOOK := Book({}, 0)

  datatype Op = Register(id: StreamId) | Unregister(id: StreamId)

  /** registerStream and unregisterStream. Unregistering twice counts twice, down to zero. */
  function Apply(b: Book, op: Op): Book {
    match op
    case Register(id) => Book(b.open + {id}, b.active + 1)
    case Unregister(id) => Book(b.open - {id}, if b.active > 0 then b.active - 1 else 0)
  }

  function ApplyAll(b: Book, ops: seq<Op>): Book
    decreases |ops|
  {
    if ops == [] then b else ApplyAll(Apply(b, ops[0]), ops[1..])
  }

  /** Stream ids are never used again (they are random UUIDs). */
  predicate FreshIds(ops: seq<Op>, used: set<StreamId>)
    decreases |ops|
  {
    ops != [] ==>
      match ops[0]
    case Register(id) => id !in used && FreshIds(ops[1..], used + {id})
    case Unregister(_) => FreshIds(ops[1..], used)
  }

  predicate Sound(b: Book) {
    b.active <= |b.open|
  }

  lemma ApplySound(b: Book, op: Op)
    requires Sound(b)
    requires op.Register? ==> op.id !in b.open
    ensures Sound(Apply(b, op))
  {
  }

  /** In every run, with streams closed any number of times, the counter never exceeds the open streams. */
  lemma {:induction false} CounterNeverExceedsStreams(b: Book, ops: seq<Op>, used: set<StreamId>)
    requires Sound(b) && b.open <= used
    requires FreshIds(ops, used)
    ensures Sound(ApplyAll(b, ops))
    decreases |ops|
  {
    if ops == [] {
    } else {
      ApplySound(b, ops[0]);
      var used' := if ops[0].Register? then used + {ops[0].id} else used;
      CounterNeverExceedsStreams(Apply(b, ops[0]), ops[1..], used');
    }
  }

  /** Every close finds its stream open, or finds no stream open at all. */
  predicate NoHarmfulClose(b: Book, ops: seq<Op>)
    decreases |ops|
  {
    ops != [] ==>
      && (ops[0].Unregister? ==> ops[0].id in b.open || b.open == {})
      && NoHarmfulClose(Apply(b, ops[0]), ops[1..])
  }

  predicate ExactThroughout(b: Book, ops: seq<Op>)
    decreases |ops|
  {
    b.active == |b.open| && (ops == [] || ExactThroughout(Apply(b, ops[0]), ops[1..]))
  }

  /**
   Exactly when: the counter equals the number of open streams all along a run if and only if no
   stream is closed again while another one is open.
   */
  lemma {:induction false} CounterExact(b: Book, ops: seq<Op>, used: set<StreamId>)
    requires b.active == |b.open| && b.open <= used
    requires FreshIds(ops, used)
    ensures ExactThroughout(b, ops) <==> NoHarmfulClose(b, ops)
    decreases |ops|
  {
    if ops == [] {
    } else {
      var op, b' := ops[0], Apply(b, ops[0]);
      if op.Register? {
        CounterExact(b', ops[1..], used + {op.id});
      } else if op.id in b.open {
        assert |b.open - {op.id}| == |b.open| - 1;
        CounterExact(b', ops[1..], used);
      } else {
        assert b'.open == b.open;
        if b.open == {} {
          CounterExact(b', ops[1..], used);
        } else {
          assert b'.active != |b'.open|;
        }
      }
    }
  }

  /** Closing one of two streams twice lets the drain end with the other one open. */
  lemma DoubleCloseEndsDrainEarly()
    ensures ApplyAll(EMPTY_BOOK, [Register(1), Register(2), Unregister(1), Unregister(1)]) == Book({2}, 0)
  {
  }

  /** What a pass that closes every open stream leaves. */
  function AllClosed(b: Book): Book {
    Book({}, if b.active > |b.open| then b.active - |b.open| else 0)
  }

  /**
   Exactly when a forced pass brings the counter to zero; otherwise no number of passes ever does,
   and the drain loop would spin.
   */
  lemma ForcedPassSuffices(b: Book)
    ensures AllClosed(b).active == 0 <==> Sound(b)
    ensures !Sound(b) ==> AllClosed(AllClosed(b)) == AllClosed(b) && AllClosed(b).active > 0
  {
  }

  function Unregisters(ids: seq<StreamId>): (ops: seq<Op>)
    ensures |ops| == |ids| && forall i :: 0 <= i < |ids| ==> ops[i] == Unregister(ids[i])
  {
    seq(|ids|, i requires 0 <= i < |ids| => Unregister(ids[i]))
  }

  /** The book after the closes of the first `n` rounds. */
  function After(b: Book, closing: nat -> seq<StreamId>, n: nat): Book {
    if n == 0 then b else ApplyAll(After(b, closing, n - 1), Unregisters(closing(n - 1)))
  }

  /** The counter is not zero in the first `n` rounds. */
  ghost predicate Busy(b: Book, closing: nat -> seq<StreamId>, n: nat) {
    forall i: nat :: i < n ==> After(b, closing, i).active > 0
  }

  lemma BusyStart(b: Book, closing: nat -> seq<StreamId>)
    ensures After(b, closing, 0) == b && Busy(b, closing, 0)
  {
  }

  lemma BusyMore(b: Book, closing: nat -> seq<StreamId>, n: nat, all: nat)
    requires Busy(b, closing, n) && n < all
    ensures After(b, closing, n + 1) == ApplyAll(After(b, closing, n), Unregisters(closing(n)))
    ensures After(b, closing, n).active > 0 ==> Busy(b, closing, n + 1)
    ensures After(b, closing, n).active == 0 ==> !Busy(b, closing, all)
  {
    hide ApplyAll, Unregisters;
  }

  lemma ForcedPassEmpties(b: Book)
    requires Sound(b)
    ensures AllClosed(b) == EMPTY_BOOK
  {
  }

  class Session {
    var streams: map<StreamId, string>
    var activeStreams: nat

    constructor ()
      ensures View() == EMPTY_BOOK
    {
      streams, activeStreams := map[], 0;
    }

    ghost function View(): Book
      reads this
    {
      Book(streams.Keys, activeStreams)
    }

    method RegisterStream(id: StreamId, name: string)
      modifies this
      ensures View() == Apply(old(View()), Register(id))
      ensures streams == old(streams)[id := name]
    {
      streams := streams[id := name];
      activeStreams := activeStreams + 1;
    }

    /** unregisterStream, which stream.Close calls every time. */
    method UnregisterStream(id: StreamId)
      modifies this
      ensures View() == Apply(old(View()), Unregister(id))
      ensures streams == old(streams) - {id}
    {
      streams := streams - {id};
      if activeStreams > 0 {
        activeStreams := activeStreams - 1;
      }
    }

    /** The forced pass of the shutdown goroutine: closes every stream of the map. */
    method CloseAllStreams()
      modifies this
      ensures View() == AllClosed(old(View()))
    {
      var todo := streams.Keys;
      ghost var start, before := todo, activeStreams;
      while todo != {}
        invariant todo == streams.Keys && todo <= start
        invariant activeStreams == if before > |start| - |todo| then before - (|start| - |todo|) else 0
        decreases todo
      {
        var id :| id in todo;
        assert |todo - {id}| == |todo| - 1;
        UnregisterStream(id);
        todo := todo - {id};
      }
    }

    /**
     The drain loop. Round `i` first sees the counter, then either the timeout (after `patience`
     rounds) and forces all streams shut, or sleeps while others close streams as in `closing(i)`.
     Without concurrent registration it terminates, with the counter at zero: by itself after some
     rounds, or else, exactly if the counter was never zero before the timeout, with no stream open.
     */
    method Drain(patience: nat, closing: nat -> seq<StreamId>) returns (ghost rounds: nat, ghost forced: bool)
      requires Sound(View())
      modifies this
      ensures activeStreams == 0 && rounds <= patience
      ensures Busy(old(View()), closing, rounds)
      ensures !forced ==> View() == After(old(View()), closing, rounds)
      ensures forced <==> Busy(old(View()), closing, patience + 1)
      ensures forced ==> View().open == {}
      ensures Sound(View()) && View().open <= old(View()).open
    {
      hide After, Busy, ApplyAll, Unregisters, AllClosed;
      rounds, forced := 0, false;
      ghost var before := View();
      var round := 0;
      BusyStart(before, closing);
      while true
        invariant Sound(View()) && View().open <= old(View()).open
        invariant rounds == round <= patience
        invariant Busy(before, closing, round)
        invariant !forced ==> View() == After(before, closing, round)
        invariant forced ==> round == patience && View() == EMPTY_BOOK && Busy(before, closing, patience + 1)
        decreases patience + 1 - round, activeStreams
      {
        if !forced {
          BusyMore(before, closing, round, patience + 1);
        }
        if activeStreams <= 0 {
          break;
        }
        if round >= patience {
          ForcedPassEmpties(View());
          CloseAllStreams();
          forced := true;
          continue;
        }
        CloseMany(closing(round));
        round := round + 1;
        rounds := round;
      }
    }

    method CloseMany(ids: seq<StreamId>)
      requires Sound(View())
      modifies this
      ensures View() == ApplyAll(old(View()), Unregisters(ids))
      ensures Sound(View()) && View().open <= old(View()).open
    {
      var i := 0;
      ghost var all := Unregisters(ids);
      while i < |ids|
        invariant i <= |ids|
        invariant Sound(View()) && View().open <= old(View()).open
        invariant ApplyAll(View(), all[i..]) == ApplyAll(old(View()), all)
      {
        ApplySound(View(), Unregister(ids[i]));
        assert all[i..][0] == Unregister(ids[i]) && all[i..][1..] == all[i + 1..];
        UnregisterStream(ids[i]);
        i := i + 1;
      }
      assert all[|ids|..] == [];
    }
  }
}
