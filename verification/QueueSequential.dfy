/**
 Runs of the wake-up protocol in which calls do not overlap. Any number of threads take part and each call may be
 made by any of them. In such runs `pending` is exact, and readability of the eventfd is decided by the history.
 */
module QueueSequential {
  import opened Words
  import opened Wrappers
  import opened Waker
  import opened QueueProtocol
  import opened QueueRuns

  /** The turn begins a call, be it one that fails at once. */
  predicate Begins<T>(s: State<T>, turn: Turn<T>) {
    && !turn.action.Continue? && !turn.action.Spawn?
    && turn.thread < |s.threads| && s.threads[turn.thread].Idle?
  }

  /** A call begins only when no other is in flight. */
  ghost predicate NoOverlap<T>(s: State<T>, schedule: Schedule<T>)
    requires ValidCounter(s.eventfd)
  {
    schedule != [] ==>
      var init, last := schedule[..|schedule| - 1], schedule[|schedule| - 1];
      NoOverlap(s, init) && (Begins(Run(s, init), last) ==> AllIdle(Run(s, init)))
  }

  /** No call in flight, `pending` exact, and work waiting announced. */
  ghost predicate Quiet<T>(s: State<T>) {
    && ValidCounter(s.eventfd)
    && AllIdle(s)
    && |s.queue| < MODULUS
    && s.pending == |s.queue|
    && (s.queue != [] ==> s.eventfd > 0)
  }

  /** A wake-up that no queued value asks for. */
  predicate Leftover<T>(s: State<T>) {
    s.queue == [] && s.eventfd > 0
  }

  /** What one turn does to the knowledge that a wake-up not due to work is left over. */
  predicate StaleAfter<T>(s: State<T>, turn: Turn<T>, stale: bool) {
    if !Begins(s, turn) then stale
    else if turn.action.Wake? then true
    else stale && !(turn.action.Pop? && |s.queue| == 1)
  }

  /** Read off the history: a wake-up not due to work was left over, and no `pop` has emptied the queue since. */
  predicate Stale<T>(s: State<T>, schedule: Schedule<T>)
    requires ValidCounter(s.eventfd)
  {
    if schedule == [] then Leftover(s)
    else
      var init := schedule[..|schedule| - 1];
      StaleAfter(Run(s, init), schedule[|schedule| - 1], Stale(s, init))
  }

  // ---------- the invariant inside a call ----------

  /** The eventfd is as the history says it is between calls. */
  ghost predicate Told<T>(s: State<T>, stale: bool) {
    s.eventfd > 0 <==> s.queue != [] || stale
  }

  /** What holds at each place inside the only call in flight. */
  ghost predicate At<T>(s: State<T>, pc: Pc, stale: bool) {
    match pc
    case Idle => s.pending == |s.queue| && Told(s, stale)
    case IncAdd => s.pending + 1 == |s.queue| && (s.eventfd > 0 <==> s.pending > 0 || stale)
    case IncWrite => s.pending == |s.queue| == 1
    case DecLoad => s.pending == |s.queue| + 1 && s.eventfd > 0 && (s.queue == [] ==> !stale)
    case DecDrain => s.pending == 1 && s.queue == [] && !stale
    case DecSub(first) => first == s.pending == |s.queue| + 1 && Told(s, stale)
    case DecRearm => false
    case AddLoad => s.pending == |s.queue| && Told(s, stale)
    case AddWrite => s.pending == |s.queue| > 0 && s.eventfd > 0
  }

  /** At most thread `t` is in a call. */
  ghost predicate OnlyBusy<T>(s: State<T>, t: nat) {
    forall u :: 0 <= u < |s.threads| && u != t ==> s.threads[u].Idle?
  }

  ghost predicate Settled<T>(s: State<T>, t: nat, stale: bool) {
    && ValidCounter(s.eventfd) && s.pending < MODULUS
    && OnlyBusy(s, t)
    && At(s, if t < |s.threads| then s.threads[t] else Idle, stale)
  }

  /** A step inside the call keeps what holds there. */
  lemma AdvanceSettled<T>(s: State<T>, t: nat, stale: bool)
    requires t < |s.threads| && Settled(s, t, stale) && |s.queue| < MODULUS
    ensures Settled(Advance(s, t), t, stale)
  {
    assert OnlyBusy(Advance(s, t), t);
  }

  lemma BeginSettled<T>(s: State<T>, t: nat, a: Action<T>, stale: bool)
    requires t < |s.threads| && AllIdle(s) && Settled(s, t, stale)
    requires Begins(s, Turn(t, a))
    ensures Settled(Begin(s, t, a), t, StaleAfter(s, Turn(t, a), stale))
  {
    assert OnlyBusy(Begin(s, t, a), t);
  }

  /** One turn of a run without overlap. The busy thread may change only between calls. */
  lemma StepSettled<T>(s: State<T>, t: nat, turn: Turn<T>, stale: bool) returns (u: nat)
    requires Settled(s, t, stale) && |s.queue| < MODULUS
    requires Begins(s, turn) ==> AllIdle(s)
    ensures Settled(Step(s, turn), u, StaleAfter(s, turn, stale))
  {
    u := t;
    if turn.action.Spawn? {
      assert OnlyBusy(Step(s, turn), t);
    } else if turn.thread < |s.threads| {
      if turn.action.Continue? {
        if s.threads[turn.thread].Idle? {
          assert Step(s, turn) == s;
        } else {
          assert turn.thread == t;
          AdvanceSettled(s, t, stale);
        }
      } else if s.threads[turn.thread].Idle? {
        u := turn.thread;
        BeginSettled(s, u, turn.action, stale);
      }
    }
  }

  lemma {:induction false} RunSettled<T>(s: State<T>, schedule: Schedule<T>) returns (t: nat)
    requires Quiet(s) && NoOverlap(s, schedule) && Within(s, schedule, MODULUS - 1)
    ensures Settled(Run(s, schedule), t, Stale(s, schedule))
  {
    if schedule == [] {
      t := |s.threads|;
    } else {
      var init, last := schedule[..|schedule| - 1], schedule[|schedule| - 1];
      var u := RunSettled(s, init);
      WeightBelowHolding(Run(s, init).threads);
      t := StepSettled(Run(s, init), u, last, Stale(s, init));
    }
  }

  /**
   Sequential exactness: over every run in which calls do not overlap, whichever threads make them, whenever no call is
   in flight `pending` is the queue length, and the eventfd is readable exactly when the queue is not empty or a
   wake-up is left over.
   */
  lemma SequentialExactness<T>(s: State<T>, schedule: Schedule<T>)
    requires Quiet(s) && NoOverlap(s, schedule) && Within(s, schedule, MODULUS - 1)
    ensures var r := Run(s, schedule);
      AllIdle(r) ==> Quiet(r) && (r.eventfd > 0 <==> r.queue != [] || Stale(s, schedule))
  {
    var t := RunSettled(s, schedule);
    WeightBelowHolding(Run(s, schedule).threads);
  }

  /** Without `wake`, a new queue whose calls do not overlap is readable exactly when it is not empty. */
  lemma ReadableIffNonEmpty<T>(cap: Option<nat>, schedule: Schedule<T>)
    requires NoOverlap(Fresh<T>(cap), schedule) && Within(Fresh<T>(cap), schedule, MODULUS - 1)
    requires NoWake(schedule)
    ensures var r := Run(Fresh<T>(cap), schedule);
      AllIdle(r) ==> r.pending == |r.queue| && (r.eventfd > 0 <==> r.queue != [])
  {
    SequentialExactness(Fresh<T>(cap), schedule);
    NeverStale(Fresh<T>(cap), schedule);
  }

  lemma {:induction false} NeverStale<T>(s: State<T>, schedule: Schedule<T>)
    requires ValidCounter(s.eventfd) && s.eventfd == 0
    requires NoWake(schedule)
    ensures !Stale(s, schedule)
  {
    if schedule != [] {
      NeverStale(s, schedule[..|schedule| - 1]);
    }
  }

  // ---------- how many threads may share the queue ----------

  /** A single thread cannot overlap with itself. */
  lemma {:induction false} OneThreadNoOverlap<T>(cap: Option<nat>, schedule: Schedule<T>)
    requires Spawns(schedule) <= 1
    ensures NoOverlap(Fresh<T>(cap), schedule)
  {
    if schedule != [] {
      OneThreadNoOverlap<T>(cap, schedule[..|schedule| - 1]);
      ThreadsAreSpawns<T>(cap, schedule[..|schedule| - 1]);
    }
  }

  /** Between calls the descriptor is readable exactly when there is work. */
  ghost predicate Truthful<T>(s: State<T>) {
    AllIdle(s) ==> (s.eventfd > 0 <==> s.queue != [])
  }

  /**
   Exactly when a readable descriptor can be trusted to mean work: in every run without `wake`, by at most `n` threads
   and with at most `bound` values at a time, if and only if there is no second thread. The capacity makes no
   difference, and neither does keeping to one value at a time.
   */
  lemma TruthfulExactly<T(!new)>(cap: Option<nat>, v: T, n: nat, bound: nat)
    requires cap != Some(0) && 1 <= bound < 0x1_0000_0000_0000_0000
    ensures (forall schedule: Schedule<T> ::
               Spawns(schedule) <= n && NoWake(schedule) && Within(Fresh<T>(cap), schedule, bound) ==>
                 Truthful(Run(Fresh<T>(cap), schedule)))
      <==> n <= 1
  {
    if n <= 1 {
      forall schedule: Schedule<T>
        | Spawns(schedule) <= n && NoWake(schedule) && Within(Fresh<T>(cap), schedule, bound)
        ensures Truthful(Run(Fresh<T>(cap), schedule))
      {
        OneThreadNoOverlap(cap, schedule);
        WithinMore(Fresh<T>(cap), schedule, bound, MODULUS - 1);
        ReadableIffNonEmpty(cap, schedule);
      }
    } else {
      var schedule := SpuriousWakeup(cap, v);
      WithinMore(Fresh<T>(cap), schedule, 1, bound);
      assert !Truthful(Run(Fresh<T>(cap), schedule));
    }
  }
}
