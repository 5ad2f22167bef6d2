/** The bounded send queue of a datapath: a queue guarded by a bounded semaphore, many senders, one
    sending loop, and a shutdown that drains the queue. An application's event mailbox is the same
    protocol without the shutdown. */
module Mailboxes {
  datatype Message = Message(buf: seq<int>, closeSocket: bool)

  datatype Sender = Sender(id: nat)

  /** `holders` are the senders between `acquire` and `put` or `release`; `taking` says that the loop has
      taken a message and not yet released its permit; `open` is False once `send_q` is None. The last
      three fields record history: what senders were told is enqueued, what the loop took, and what the
      shutdown threw away. */
  datatype State = State(capacity: nat, permits: nat, queue: seq<Message>, holders: set<Sender>, taking: bool,
                         open: bool, accepted: seq<Message>, taken: seq<Message>, discarded: seq<Message>)

  function Start(capacity: nat): State {
    State(capacity, capacity, [], {}, false, true, [], [], [])
  }

  datatype Step =
    | Acquire(s: Sender)
    | PutOrRelease(s: Sender, m: Message)
    | Take
    | ReleaseTaken
    | Shutdown
    | Drain

  predicate Enabled(st: State, e: Step) {
    match e
    case Acquire(s) => st.permits > 0 && s !in st.holders
    case PutOrRelease(s, _) => s in st.holders
    case Take => st.open && !st.taking && st.queue != []
    case ReleaseTaken => st.taking
    case Shutdown => st.open && !st.taking
    case Drain => !st.open && st.queue != []
  }

  function Next(st: State, e: Step): State
    requires Enabled(st, e)
  {
    match e
    case Acquire(s) => st.(permits := st.permits - 1, holders := st.holders + {s})
    case PutOrRelease(s, m) =>
      if st.open then st.(queue := st.queue + [m], holders := st.holders - {s}, accepted := st.accepted + [m])
      else st.(permits := st.permits + 1, holders := st.holders - {s})
    case Take => st.(queue := st.queue[1..], taking := true, taken := st.taken + [st.queue[0]])
    case ReleaseTaken => st.(permits := st.permits + 1, taking := false)
    case Shutdown => st.(open := false)
    case Drain => st.(queue := st.queue[1..], permits := st.permits + 1, discarded := st.discarded + [st.queue[0]])
  }

  ghost predicate IsRun(st: State, es: seq<Step>)
    decreases |es|
  {
    es == [] || (Enabled(st, es[0]) && IsRun(Next(st, es[0]), es[1..]))
  }

  ghost function Final(st: State, es: seq<Step>): State
    requires IsRun(st, es)
    decreases |es|
  {
    if es == [] then st else Final(Next(st, es[0]), es[1..])
  }

  /** Every permit is free, on a queued message, with a sender, or with the loop; every accepted message
      is taken in order, still queued, or thrown away by the shutdown. */
  ghost predicate Conserved(st: State) {
    && st.permits + |st.queue| + |st.holders| + (if st.taking then 1 else 0) == st.capacity
    && st.accepted == st.taken + st.discarded + st.queue
    && (st.open ==> st.discarded == [])
    && (!st.open ==> !st.taking)
  }

  lemma StepConserves(st: State, e: Step)
    requires Conserved(st) && Enabled(st, e)
    ensures Conserved(Next(st, e)) && Next(st, e).capacity == st.capacity
    ensures !st.open ==> !Next(st, e).open && Next(st, e).accepted == st.accepted && Next(st, e).taken == st.taken
  {
  }

  lemma {:induction false} RunConserves(st: State, es: seq<Step>)
    requires Conserved(st) && IsRun(st, es)
    ensures Conserved(Final(st, es)) && Final(st, es).capacity == st.capacity
    ensures !st.open ==> !Final(st, es).open && Final(st, es).accepted == st.accepted && Final(st, es).taken == st.taken
    decreases |es|
  {
    if es != [] {
      StepConserves(st, es[0]);
      RunConserves(Next(st, es[0]), es[1..]);
    }
  }

  /** The messages that senders put before the shutdown, in that order. */
  function PutBeforeShutdown(es: seq<Step>): seq<Message> {
    if es == [] || es[0].Shutdown? then []
    else (if es[0].PutOrRelease? then [es[0].m] else []) + PutBeforeShutdown(es[1..])
  }

  function Count(es: seq<Step>, takes: bool): nat {
    if es == [] then 0
    else (if (if takes then es[0].Take? else es[0].Drain?) then 1 else 0) + Count(es[1..], takes)
  }

  lemma NextAccepts(st: State, e: Step)
    requires Enabled(st, e)
    ensures Next(st, e).open == (st.open && !e.Shutdown?)
    ensures Next(st, e).accepted == st.accepted + if e.PutOrRelease? && st.open then [e.m] else []
  {
  }

  lemma {:induction false} AcceptedWasPut(st: State, es: seq<Step>)
    requires IsRun(st, es)
    ensures Final(st, es).accepted == st.accepted + if st.open then PutBeforeShutdown(es) else []
    decreases |es|
  {
    if es != [] {
      var e, next, later := es[0], Next(st, es[0]), PutBeforeShutdown(es[1..]);
      NextAccepts(st, e);
      AcceptedWasPut(next, es[1..]);
      hide Next, Enabled, IsRun;
      var put := if e.PutOrRelease? && st.open then [e.m] else [];
      assert (st.accepted + put) + later == st.accepted + (put + later);
      assert (st.accepted + put) + [] == st.accepted + put;
      assert [] + later == later;
    }
  }

  lemma {:induction false} TakenAreCounted(st: State, es: seq<Step>)
    requires IsRun(st, es)
    ensures |Final(st, es).taken| == |st.taken| + Count(es, true)
    ensures |Final(st, es).discarded| == |st.discarded| + Count(es, false)
    decreases |es|
  {
    if es != [] {
      TakenAreCounted(Next(st, es[0]), es[1..]);
    }
  }

  /** What is accepted is what was put before the shutdown; of that, the loop takes one message from the front
      with each `get`, the shutdown throws away the next, one with each `get`, and the rest is queued. */
  lemma HistoryMeans(capacity: nat, es: seq<Step>)
    requires IsRun(Start(capacity), es)
    ensures var fin, put := Final(Start(capacity), es), PutBeforeShutdown(es);
            var t, d := Count(es, true), Count(es, false);
            && t + d <= |put|
            && fin.taken == put[..t] && fin.discarded == put[t..t + d] && fin.queue == put[t + d..]
  {
    var st := Start(capacity);
    RunConserves(st, es);
    AcceptedWasPut(st, es);
    TakenAreCounted(st, es);
    assert [] + PutBeforeShutdown(es) == PutBeforeShutdown(es);
    var fin := Final(st, es);
    assert fin.accepted == fin.taken + fin.discarded + fin.queue;
  }

  /** In every run with any number of senders: a sender that puts never finds the queue full, and no
      release exceeds the semaphore's bound. */
  lemma NeverFullNeverOverflows(capacity: nat, es: seq<Step>, e: Step)
    requires IsRun(Start(capacity), es) && Enabled(Final(Start(capacity), es), e)
    ensures var st := Final(Start(capacity), es);
            && (e.PutOrRelease? && st.open ==> |st.queue| < capacity)
            && (Next(st, e).permits > st.permits ==> st.permits < capacity)
  {
    RunConserves(Start(capacity), es);
    var st := Final(Start(capacity), es);
    if e.PutOrRelease? {
      assert |st.holders| == |st.holders - {e.s}| + 1;
    }
  }

  /** Until the shutdown nothing accepted is lost or reordered: what the loop took is a prefix of what was
      accepted, and the rest is queued. After it, every send is refused. */
  lemma SendsAreFifo(capacity: nat, es: seq<Step>, later: seq<Step>)
    requires IsRun(Start(capacity), es) && IsRun(Final(Start(capacity), es), later)
    ensures var st := Final(Start(capacity), es);
            var fin := Final(st, later);
            && st.taken <= st.accepted
            && (st.open ==> st.accepted == st.taken + st.queue)
            && (!st.open ==> fin.accepted == st.accepted && !fin.open)
  {
    RunConserves(Start(capacity), es);
    RunConserves(Final(Start(capacity), es), later);
  }

  /** After a shutdown every permit can come back: drain the queue, then let each holder go on. So no
      sender stays blocked for ever. */
  lemma {:induction false} PermitsComeBack(st: State, m: Message) returns (es: seq<Step>)
    requires Conserved(st) && !st.open
    ensures IsRun(st, es)
    ensures var fin := Final(st, es);
            fin.permits == fin.capacity && fin.queue == [] && fin.holders == {} && fin.accepted == st.accepted
    decreases |st.queue| + |st.holders|
  {
    if st.queue == [] && st.holders == {} {
      return [];
    }
    var e := Drain;
    if st.queue == [] {
      var s :| s in st.holders;
      e := PutOrRelease(s, m);
      assert |st.holders| == |st.holders - {s}| + 1;
    }
    StepConserves(st, e);
    var rest := PermitsComeBack(Next(st, e), m);
    es := [e] + rest;
    assert es[1..] == rest;
  }

  /** And whatever happens without new acquires, they do: such a run is bounded, and when nothing but an
      acquire can happen next, all permits are free. */
  lemma {:induction false} WithoutAcquiresAllComeBack(st: State, es: seq<Step>)
    requires Conserved(st) && !st.open && IsRun(st, es)
    requires forall e :: e in es ==> !e.Acquire?
    ensures |es| <= |st.queue| + |st.holders|
    ensures (forall e :: Enabled(Final(st, es), e) ==> e.Acquire?) <==> Final(st, es).permits == st.capacity
    decreases |es|
  {
    if es == [] {
      NothingLeftIffAllFree(st);
    } else {
      var e := es[0];
      StepConserves(st, e);
      assert e in es && forall x :: x in es[1..] ==> x in es;
      if e.PutOrRelease? {
        assert |st.holders| == |st.holders - {e.s}| + 1;
      }
      WithoutAcquiresAllComeBack(Next(st, e), es[1..]);
    }
  }

  lemma NothingLeftIffAllFree(st: State)
    requires Conserved(st) && !st.open
    ensures (forall e :: Enabled(st, e) ==> e.Acquire?) <==> st.permits == st.capacity
  {
    if st.permits == st.capacity {
      assert |st.queue| == 0 && |st.holders| == 0;
    } else if st.queue != [] {
      assert Enabled(st, Drain);
    } else {
      assert st.holders != {};
      var s :| s in st.holders;
      assert Enabled(st, PutOrRelease(s, Message([], false)));
    }
  }

  /** The queue and semaphore of one `Datapath`, with the atomic pieces of `send` and `_send_loop`. */
  class SendQueue {
    const capacity: nat
    var permits: nat
    var queue: seq<Message>
    var open: bool
    ghost var holders: set<Sender>
    ghost var taking: bool
    ghost var accepted: seq<Message>
    ghost var taken: seq<Message>
    ghost var discarded: seq<Message>

    ghost function Abs(): State
      reads this
    {
      State(capacity, permits, queue, holders, taking, open, accepted, taken, discarded)
    }

    ghost predicate Valid()
      reads this
    {
      Conserved(Abs())
    }

    constructor (maxsize: nat)
      ensures Valid() && Abs() == Start(maxsize)
    {
      capacity, permits, queue, open := maxsize, maxsize, [], true;
      holders, taking, accepted, taken, discarded := {}, false, [], [], [];
    }

    /** `_send_q_sem.acquire()`, once it does not block. */
    method AcquirePermit(ghost s: Sender)
      requires Valid() && Enabled(Abs(), Acquire(s))
      modifies this
      ensures Valid() && Abs() == Next(old(Abs()), Acquire(s))
      ensures permits == old(permits) - 1 && queue == old(queue) && open == old(open)
    {
      StepConserves(Abs(), Acquire(s));
      permits := permits - 1;
      holders := holders + {s};
    }

    /** The rest of `send`; the queue has room whenever it is open. */
    method PutOrReleasePermit(ghost s: Sender, m: Message) returns (enqueued: bool)
      requires Valid() && Enabled(Abs(), PutOrRelease(s, m))
      modifies this
      ensures Valid() && Abs() == Next(old(Abs()), PutOrRelease(s, m))
      ensures enqueued == old(open) && open == old(open)
      ensures queue == old(queue) + (if enqueued then [m] else [])
      ensures permits == old(permits) + (if enqueued then 0 else 1)
    {
      StepConserves(Abs(), PutOrRelease(s, m));
      assert |holders| == |holders - {s}| + 1;
      enqueued := false;
      if open {
        assert |queue| < capacity;
        queue := queue + [m];
        enqueued := true;
        accepted := accepted + [m];
      } else {
        assert permits < capacity;
        permits := permits + 1;
      }
      holders := holders - {s};
    }

    /** `get` and `release` in `_send_loop`. */
    method TakeNext() returns (m: Message)
      requires Valid() && Enabled(Abs(), Take)
      modifies this
      ensures Valid() && m == old(queue)[0] && queue == old(queue)[1..] && permits == old(permits) + 1
      ensures Abs() == Next(Next(old(Abs()), Take), ReleaseTaken)
    {
      StepConserves(Abs(), Take);
      StepConserves(Next(Abs(), Take), ReleaseTaken);
      m := queue[0];
      queue := queue[1..];
      taken := taken + [m];
      permits := permits + 1;
    }

    /** The `finally` part of `_send_loop`: refuse new messages, then give every permit back. */
    method ShutdownAndDrain()
      requires Valid() && Enabled(Abs(), Shutdown)
      modifies this
      ensures Valid() && !open && queue == [] && permits + |holders| == capacity
      ensures holders == old(holders) && accepted == old(accepted) && taken == old(taken)
      ensures discarded == old(queue)
    {
      StepConserves(Abs(), Shutdown);
      open := false;
      while queue != []
        invariant Valid() && !open && holders == old(holders) && accepted == old(accepted) && taken == old(taken)
        invariant discarded + queue == old(queue)
        decreases |queue|
      {
        assert queue == [queue[0]] + queue[1..];
        DrainOne();
      }
    }

    /** One non-blocking `get` of the drain, with its release. */
    method DrainOne()
      requires Valid() && Enabled(Abs(), Drain)
      modifies this
      ensures Valid() && Abs() == Next(old(Abs()), Drain)
    {
      StepConserves(Abs(), Drain);
      discarded := discarded + [queue[0]];
      queue := queue[1..];
      permits := permits + 1;
    }
  }
}
