/**
 The wake-up protocol of `Queue` as a transition system. Any number of threads share a FIFO,
 the atomic counter `pending` and the eventfd counter. Each queue operation, atomic operation
 and eventfd operation is one atomic step; a thread's program counter says what its call does next.
 */
module QueueProtocol {
  import opened Words
  import opened Wrappers
  import opened Waker

  /** Where a thread is inside its call; `Idle` between calls. */
  datatype Pc =
    | Idle
    | IncAdd               // value enqueued, before fetch_add
    | IncWrite             // fetch_add returned 0, before the eventfd write
    | DecLoad              // value dequeued, before the load
    | DecDrain             // the load returned 1, before the eventfd read
    | DecSub(first: nat)   // before fetch_sub
    | DecRearm             // first == 1 && second > 1, before the eventfd write
    | AddLoad              // registered with epoll, before the load
    | AddWrite             // the load returned more than 0, before the eventfd write

  datatype State<T> = State(
    queue: seq<T>, cap: Option<nat>, closed: bool, pending: nat, eventfd: nat, threads: seq<Pc>)

  /** What a scheduled thread does: begin a call if it is idle, or take the next step of its call. */
  datatype Action<T> = Push(value: T) | Pop | Wake | Add | Close | Continue | Spawn

  datatype Turn<T> = Turn(thread: nat, action: Action<T>)

  type Schedule<T> = seq<Turn<T>>

  predicate Full<T>(s: State<T>) {
    s.cap.Some? && |s.queue| >= s.cap.value
  }

  /** The first atomic operation of a call. `push` and `pop` touch the queue first, and end at once if that fails. */
  function Begin<T>(s: State<T>, t: nat, a: Action<T>): State<T>
    requires t < |s.threads| && ValidCounter(s.eventfd)
  {
    match a
    case Push(v) =>
      if s.closed || Full(s) then s
      else s.(queue := s.queue + [v], threads := s.threads[t := IncAdd])
    case Pop =>
      if s.queue == [] then s
      else s.(queue := s.queue[1..], threads := s.threads[t := DecLoad])
    case Wake => s.(eventfd := Signal(s.eventfd))
    case Add => s.(threads := s.threads[t := AddLoad])
    case Close => s.(closed := true)
    case _ => s
  }

  /** The next atomic operation of the call that thread `t` is in. */
  function Advance<T>(s: State<T>, t: nat): State<T>
    requires t < |s.threads| && ValidCounter(s.eventfd)
  {
    match s.threads[t]
    case Idle => s
    case IncAdd =>
      s.(pending := Wrap(s.pending + 1), threads := s.threads[t := if 0 == s.pending then IncWrite else Idle])
    case IncWrite => s.(eventfd := SetTo(s.eventfd, READABLE), threads := s.threads[t := Idle])
    case DecLoad =>
      s.(threads := s.threads[t := if s.pending == 1 then DecDrain else DecSub(s.pending)])
    case DecDrain => s.(eventfd := SetTo(s.eventfd, EMPTY), threads := s.threads[t := DecSub(1)])
    case DecSub(first) =>
      s.(pending := Wrap(s.pending - 1),
      threads := s.threads[t := if first == 1 && s.pending > 1 then DecRearm else Idle])
    case DecRearm => s.(eventfd := SetTo(s.eventfd, READABLE), threads := s.threads[t := Idle])
    case AddLoad => s.(threads := s.threads[t := if s.pending > 0 then AddWrite else Idle])
    case AddWrite => s.(eventfd := SetTo(s.eventfd, READABLE), threads := s.threads[t := Idle])
  }

  /** One turn. A turn that names no thread, or an action the thread cannot take now, changes nothing. */
  function Step<T>(s: State<T>, turn: Turn<T>): (r: State<T>)
    requires ValidCounter(s.eventfd)
    ensures ValidCounter(r.eventfd)
  {
    var t := turn.thread;
    if turn.action.Spawn? then s.(threads := s.threads + [Idle])
    else if t >= |s.threads| then s
    else if turn.action.Continue? then Advance(s, t)
    else if s.threads[t].Idle? then Begin(s, t, turn.action)
    else s
  }

  function Run<T>(s: State<T>, schedule: Schedule<T>): (r: State<T>)
    requires ValidCounter(s.eventfd)
    ensures ValidCounter(r.eventfd)
  {
    if schedule == [] then s
    else Step(Run(s, schedule[..|schedule| - 1]), schedule[|schedule| - 1])
  }

  /** A queue just built by `bounded` or `unbounded`, before any thread uses it. */
  function Fresh<T>(cap: Option<nat>): State<T> {
    State([], cap, false, 0, 0, [])
  }

  ghost predicate AllIdle<T>(s: State<T>) {
    forall t :: 0 <= t < |s.threads| ==> s.threads[t].Idle?
  }

  /** Quiet, with work waiting, but epoll would not report the descriptor. */
  ghost predicate LostWakeup<T>(s: State<T>) {
    AllIdle(s) && s.queue != [] && s.eventfd == 0
  }

  // ---------- sums over threads ----------

  function Sum(f: Pc -> int, threads: seq<Pc>): int {
    if threads == [] then 0 else f(threads[0]) + Sum(f, threads[1..])
  }

  /** Counted by `pending` and no longer in the queue (+1), or in the queue and not yet counted (-1). */
  function Weight(pc: Pc): int {
    match pc
    case IncAdd => -1
    case DecLoad | DecDrain | DecSub(_) => 1
    case _ => 0
  }

  /** Threads that hold a dequeued value `pending` still counts. */
  function Holding(pc: Pc): int {
    if pc.DecLoad? || pc.DecDrain? || pc.DecSub? then 1 else 0
  }

  /** The value `pending` would have if it did not wrap. */
  function Signed<T>(s: State<T>): int {
    |s.queue| + Sum(Weight, s.threads)
  }

  /** Values that exist at all: still queued, or held by a `pop` that has not yet decremented. */
  function Items<T>(s: State<T>): int {
    |s.queue| + Sum(Holding, s.threads)
  }

  /** A thread that will write to the eventfd, or that has drained it and will look at `pending` again. */
  predicate Guards(pc: Pc) {
    pc.IncWrite? || pc.DecRearm? || pc.DecDrain? || pc == DecSub(1)
  }

  ghost predicate SomeGuard(threads: seq<Pc>) {
    exists t :: 0 <= t < |threads| && Guards(threads[t])
  }

  // ---------- invariants ----------

  ghost predicate Counted<T>(s: State<T>) {
    s.pending == Wrap(Signed(s))
  }

  ghost predicate Inv<T>(s: State<T>) {
    && ValidCounter(s.eventfd)
    && Counted(s)
    && (Signed(s) >= 1 && s.eventfd == 0 ==> SomeGuard(s.threads))
  }

  lemma {:induction false} SumUpdate(f: Pc -> int, threads: seq<Pc>, t: nat, pc: Pc)
    requires t < |threads|
    ensures Sum(f, threads[t := pc]) == Sum(f, threads) - f(threads[t]) + f(pc)
  {
    if t == 0 {
      assert threads[0 := pc][1..] == threads[1..];
    } else {
      SumUpdate(f, threads[1..], t - 1, pc);
      assert threads[t := pc][1..] == threads[1..][t - 1 := pc];
    }
  }

  lemma {:induction false} SumAppend(f: Pc -> int, threads: seq<Pc>, pc: Pc)
    ensures Sum(f, threads + [pc]) == Sum(f, threads) + f(pc)
  {
    if threads == [] {
      assert threads + [pc] == [pc];
    } else {
      SumAppend(f, threads[1..], pc);
      assert (threads + [pc])[1..] == threads[1..] + [pc];
    }
  }

  lemma {:induction false} WeightBelowHolding(threads: seq<Pc>)
    ensures Sum(Weight, threads) <= Sum(Holding, threads)
    ensures 0 <= Sum(Holding, threads) <= |threads|
  {
    if threads != [] {
      WeightBelowHolding(threads[1..]);
    }
  }

  lemma {:induction false} SumIdle(f: Pc -> int, threads: seq<Pc>)
    requires f(Idle) == 0
    requires forall t :: 0 <= t < |threads| ==> threads[t].Idle?
    ensures Sum(f, threads) == 0
  {
    if threads != [] {
      SumIdle(f, threads[1..]);
    }
  }

  /** What one turn does to the three sums: at most one thread's program counter changes. */
  lemma StepSums<T>(s: State<T>, turn: Turn<T>, f: Pc -> int)
    requires ValidCounter(s.eventfd) && f(Idle) == 0
    ensures var r := Step(s, turn);
      if turn.thread < |s.threads| <= |r.threads|
      then Sum(f, r.threads) == Sum(f, s.threads) - f(s.threads[turn.thread]) + f(r.threads[turn.thread])
      else Sum(f, r.threads) == Sum(f, s.threads)
  {
    var r := Step(s, turn);
    if turn.action.Spawn? {
      SumAppend(f, s.threads, Idle);
    } else if turn.thread < |s.threads| {
      SumUpdate(f, s.threads, turn.thread, r.threads[turn.thread]);
      assert r.threads == s.threads[turn.thread := r.threads[turn.thread]];
    }
  }

  /** `pending` and its signed value move together, by at most one. */
  ghost predicate Together<T>(s: State<T>, r: State<T>) {
    || (r.pending == s.pending && Signed(r) == Signed(s))
    || (r.pending == Wrap(s.pending + 1) && Signed(r) == Signed(s) + 1)
    || (r.pending == Wrap(s.pending - 1) && Signed(r) == Signed(s) - 1)
  }

  lemma BeginSigned<T>(s: State<T>, t: nat, a: Action<T>)
    requires ValidCounter(s.eventfd) && t < |s.threads| && s.threads[t].Idle?
    ensures Together(s, Begin(s, t, a))
  {
    SumUpdate(Weight, s.threads, t, Begin(s, t, a).threads[t]);
  }

  lemma AdvanceSigned<T>(s: State<T>, t: nat)
    requires ValidCounter(s.eventfd) && t < |s.threads|
    ensures Together(s, Advance(s, t))
  {
    SumUpdate(Weight, s.threads, t, Advance(s, t).threads[t]);
  }

  lemma StepSigned<T>(s: State<T>, turn: Turn<T>)
    requires ValidCounter(s.eventfd)
    ensures Together(s, Step(s, turn))
  {
    if turn.action.Spawn? {
      SumAppend(Weight, s.threads, Idle);
    } else if turn.thread < |s.threads| {
      if turn.action.Continue? {
        AdvanceSigned(s, turn.thread);
      } else if s.threads[turn.thread].Idle? {
        BeginSigned(s, turn.thread, turn.action);
      }
    }
  }

  /** Counter conservation: every atomic step keeps `pending` equal to its signed value modulo 2^64. */
  lemma StepCounted<T>(s: State<T>, turn: Turn<T>)
    requires ValidCounter(s.eventfd) && Counted(s)
    ensures Counted(Step(s, turn))
  {
    StepSigned(s, turn);
    WrapStep(Signed(s));
  }

  /**
   The heart of the protocol. A thread stops being a guard only by writing to the eventfd, or by a fetch_sub
   that saw 0 or 1, after which nothing is counted; and a drain, or the fetch_add that counts the first
   value, leaves its own thread as a guard.
   */
  lemma AdvanceGuard<T>(s: State<T>, t: nat)
    requires t < |s.threads| && Inv(s) && Signed(s) < MODULUS
    requires Signed(Advance(s, t)) >= 1 && Advance(s, t).eventfd == 0
    ensures SomeGuard(Advance(s, t).threads)
  {
    var r := Advance(s, t);
    AdvanceSigned(s, t);
    if !Guards(r.threads[t]) {
      assert r.pending != s.pending ==> s.pending == Signed(s);
      assert !Guards(s.threads[t]) && Signed(s) >= 1;
      var w :| 0 <= w < |s.threads| && Guards(s.threads[w]);
      assert Guards(r.threads[w]);
    }
  }

  /** Beginning a call never unsettles the invariant: a pop only moves a value from the queue to its caller. */
  lemma BeginGuard<T>(s: State<T>, t: nat, a: Action<T>)
    requires t < |s.threads| && s.threads[t].Idle? && Inv(s)
    requires Signed(Begin(s, t, a)) >= 1 && Begin(s, t, a).eventfd == 0
    ensures SomeGuard(Begin(s, t, a).threads)
  {
    var r := Begin(s, t, a);
    SumUpdate(Weight, s.threads, t, r.threads[t]);
    var w :| 0 <= w < |s.threads| && Guards(s.threads[w]);
    assert Guards(r.threads[w]);
  }

  /** Every atomic step keeps the invariant, as long as fewer than 2^64 values exist. */
  lemma StepInv<T>(s: State<T>, turn: Turn<T>)
    requires Inv(s) && Items(s) < MODULUS
    ensures Inv(Step(s, turn))
  {
    var r, t := Step(s, turn), turn.thread;
    StepCounted(s, turn);
    WeightBelowHolding(s.threads);
    if Signed(r) >= 1 && r.eventfd == 0 {
      if turn.action.Spawn? {
        SumAppend(Weight, s.threads, Idle);
        var w :| 0 <= w < |s.threads| && Guards(s.threads[w]);
        assert Guards(r.threads[w]);
      } else if t < |s.threads| && turn.action.Continue? {
        AdvanceGuard(s, t);
      } else if t < |s.threads| && s.threads[t].Idle? {
        BeginGuard(s, t, turn.action);
      }
    }
  }
}
