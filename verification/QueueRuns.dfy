/** Theorems about whole runs of the wake-up protocol. */
module QueueRuns {
  import opened Words
  import opened Wrappers
  import opened Waker
  import opened QueueProtocol

  /** At no point of the run, its end included, do more than `bound` values exist. */
  ghost predicate Within<T>(s: State<T>, schedule: Schedule<T>, bound: int)
    requires ValidCounter(s.eventfd)
  {
    && Items(Run(s, schedule)) <= bound
    && (schedule != [] ==> Within(s, schedule[..|schedule| - 1], bound))
  }

  // ---------- counter conservation ----------

  /** In every reachable state, without any bound, `pending` is its signed value modulo 2^64. */
  lemma {:induction false} PendingConserved<T>(cap: Option<nat>, schedule: Schedule<T>)
    ensures Counted(Run(Fresh<T>(cap), schedule))
  {
    if schedule != [] {
      PendingConserved(cap, schedule[..|schedule| - 1]);
      StepCounted(Run(Fresh<T>(cap), schedule[..|schedule| - 1]), schedule[|schedule| - 1]);
    }
  }

  /**
   While the signed value stays within 63 bits, `0 == cnt` and `first == 1` decide on the signed value,
   and `second > 1` errs only towards an extra wake-up, exactly when more values were popped than counted.
   */
  lemma CounterTests<T>(s: State<T>)
    requires Counted(s)
    requires -0x8000_0000_0000_0000 <= Signed(s) < 0x8000_0000_0000_0000
    ensures 0 == s.pending <==> Signed(s) == 0
    ensures s.pending == 1 <==> Signed(s) == 1
    ensures s.pending > 1 <==> Signed(s) > 1 || Signed(s) < 0
  {
    WrapTests(Signed(s));
  }

  // ---------- no lost wake-up ----------

  lemma {:induction false} RunInv<T>(cap: Option<nat>, schedule: Schedule<T>, bound: int)
    requires bound < MODULUS
    requires Within(Fresh<T>(cap), schedule, bound)
    ensures Inv(Run(Fresh<T>(cap), schedule))
  {
    var s := Fresh<T>(cap);
    if schedule != [] {
      var init := schedule[..|schedule| - 1];
      RunInv(cap, init, bound);
      StepInv(Run(s, init), schedule[|schedule| - 1]);
    }
  }

  /** In a quiet state the invariant says: `pending` is the queue length, and work waiting means readable. */
  lemma QuietState<T>(s: State<T>)
    requires Inv(s) && AllIdle(s) && |s.queue| < MODULUS
    ensures s.pending == |s.queue|
    ensures s.queue != [] ==> s.eventfd > 0
  {
    SumIdle(Weight, s.threads);
  }

  /** No lost wake-up: whenever no call is in flight and the queue is not empty, the eventfd is readable. */
  lemma NoLostWakeup<T>(cap: Option<nat>, schedule: Schedule<T>)
    requires Within(Fresh<T>(cap), schedule, MODULUS - 1)
    ensures var s := Run(Fresh<T>(cap), schedule);
      AllIdle(s) ==> s.pending == |s.queue| && (s.queue != [] ==> s.eventfd > 0)
  {
    var s := Run(Fresh<T>(cap), schedule);
    RunInv(cap, schedule, MODULUS - 1);
    if AllIdle(s) {
      SumIdle(Holding, s.threads);
      QuietState(s);
    }
  }

  /** How many threads a schedule starts. */
  function Spawns<T>(schedule: Schedule<T>): (r: nat) {
    if schedule == [] then 0
    else Spawns(schedule[..|schedule| - 1]) + if schedule[|schedule| - 1].action.Spawn? then 1 else 0
  }

  ghost predicate NoWake<T>(schedule: Schedule<T>) {
    forall n :: 0 <= n < |schedule| ==> !schedule[n].action.Wake?
  }

  lemma {:induction false} ThreadsAreSpawns<T>(cap: Option<nat>, schedule: Schedule<T>)
    ensures |Run(Fresh<T>(cap), schedule).threads| == Spawns(schedule)
  {
    if schedule != [] {
      ThreadsAreSpawns<T>(cap, schedule[..|schedule| - 1]);
    }
  }

  /** A bounded queue never exceeds its capacity, and each thread holds at most one value. */
  lemma {:induction false} BoundedItems<T>(cap: nat, schedule: Schedule<T>)
    ensures var s := Run(Fresh<T>(Some(cap)), schedule);
      && s.cap == Some(cap) && |s.queue| <= cap
      && |s.threads| == Spawns(schedule)
      && Items(s) <= cap + Spawns(schedule)
  {
    if schedule != [] {
      BoundedItems<T>(cap, schedule[..|schedule| - 1]);
    }
    WeightBelowHolding(Run(Fresh<T>(Some(cap)), schedule).threads);
  }

  lemma {:induction false} BoundedWithin<T>(cap: nat, schedule: Schedule<T>, bound: int)
    requires cap + Spawns(schedule) <= bound
    ensures Within(Fresh<T>(Some(cap)), schedule, bound)
  {
    BoundedItems(cap, schedule);
    if schedule != [] {
      BoundedWithin(cap, schedule[..|schedule| - 1], bound);
    }
  }

  /** For a bounded queue the range condition is free: capacity plus threads below 2^64 is enough. */
  lemma NoLostWakeupBounded<T>(cap: nat, schedule: Schedule<T>)
    requires cap + Spawns(schedule) < 0x1_0000_0000_0000_0000
    ensures !LostWakeup(Run(Fresh<T>(Some(cap)), schedule))
  {
    BoundedWithin(cap, schedule, MODULUS - 1);
    NoLostWakeup(Some(cap), schedule);
  }

  // ---------- the bound is exact ----------

  lemma {:induction false} RunConcat<T>(s: State<T>, a: Schedule<T>, b: Schedule<T>)
    requires ValidCounter(s.eventfd)
    ensures Run(s, a + b) == Run(Run(s, a), b)
  {
    if b == [] {
      assert a + b == a;
    } else {
      RunConcat(s, a, b[..|b| - 1]);
      assert (a + b)[..|a + b| - 1] == a + b[..|b| - 1];
    }
  }

  lemma {:induction false} WithinConcat<T>(s: State<T>, a: Schedule<T>, b: Schedule<T>, bound: int)
    requires ValidCounter(s.eventfd)
    requires Within(s, a, bound) && Within(Run(s, a), b, bound)
    ensures Within(s, a + b, bound)
  {
    if b == [] {
      assert a + b == a;
    } else {
      WithinConcat(s, a, b[..|b| - 1], bound);
      RunConcat(s, a, b);
      assert (a + b)[..|a + b| - 1] == a + b[..|b| - 1];
    }
  }

  /** Two threads are started, and the first enqueues `v` and increments, but has not written to the eventfd. */
  function EnqueuedSchedule<T>(v: T): Schedule<T> {
    [Turn(0, Spawn), Turn(0, Spawn), Turn(0, Push(v)), Turn(0, Continue)]
  }

  /** The first thread finishes its push; the second pops the value and stops between its drain and its fetch_sub. */
  function DrainedSchedule<T>(v: T): Schedule<T> {
    EnqueuedSchedule(v) + [Turn(0, Continue)] + [Turn(1, Pop)] + [Turn(1, Continue)] + [Turn(1, Continue)]
  }

  /** The state after `DrainedSchedule` and `n` more completed pushes of `v` by the first thread. */
  function Stalled<T>(v: T, n: nat): State<T> {
    State(seq(n, _ => v), None, false, Wrap(n + 1), 0, [Idle, DecSub(1)])
  }

  /** `n` pushes by the first thread. */
  function Burst<T>(v: T, n: nat): Schedule<T> {
    if n == 0 then [] else Burst(v, n - 1) + [Turn(0, Push(v)), Turn(0, Continue)]
  }

  lemma OneTurn<T>(s: State<T>, turn: Turn<T>)
    requires ValidCounter(s.eventfd)
    ensures Run(s, [turn]) == Step(s, turn)
  {
    assert [turn][..0] == [];
    assert Run(s, [turn][..0]) == s;
  }

  /** Appending one turn to a run whose result is known. */
  lemma Extend<T>(s: State<T>, a: Schedule<T>, turn: Turn<T>, bound: int, after: State<T>)
    requires ValidCounter(s.eventfd) && Within(s, a, bound)
    requires Step(Run(s, a), turn) == after && Items(after) <= bound
    ensures Run(s, a + [turn]) == after && Within(s, a + [turn], bound)
  {
    assert (a + [turn])[..|a + [turn]| - 1] == a;
  }

  lemma SumTwo(f: Pc -> int, a: Pc, b: Pc)
    ensures Sum(f, []) == 0 && Sum(f, [a]) == f(a) && Sum(f, [a, b]) == f(a) + f(b)
  {
    assert [a, b][1..] == [b];
    assert [a][1..] == [] == [b][1..];
    assert Sum(f, [b]) == f(b) + Sum(f, []);
    assert Sum(f, [a]) == f(a) + Sum(f, []);
    assert Sum(f, [a, b]) == f(a) + Sum(f, [b]);
  }

  /** `Extend` for states with two threads. */
  lemma ExtendTwo<T>(s: State<T>, a: Schedule<T>, turn: Turn<T>, bound: int, after: State<T>)
    requires ValidCounter(s.eventfd) && Within(s, a, bound)
    requires Step(Run(s, a), turn) == after && |after.threads| == 2
    requires |after.queue| + Holding(after.threads[0]) + Holding(after.threads[1]) <= bound
    ensures Run(s, a + [turn]) == after && Within(s, a + [turn], bound)
  {
    SumTwo(Holding, after.threads[0], after.threads[1]);
    assert after.threads == [after.threads[0], after.threads[1]];
    Extend(s, a, turn, bound, after);
  }

  lemma TwoThreads<T>(cap: Option<nat>, bound: int)
    requires bound >= 0
    ensures var s0, a := Fresh<T>(cap), [Turn(0, Spawn), Turn(0, Spawn)];
      Run(s0, a) == s0.(threads := [Idle, Idle]) && Within(s0, a, bound)
  {
    var s0 := Fresh<T>(cap);
    var spawn: Turn<T> := Turn(0, Spawn);
    SumTwo(Holding, Idle, Idle);
    assert Within(s0, [], bound);
    Extend(s0, [], spawn, bound, s0.(threads := [Idle]));
    assert [] + [spawn] == [spawn];
    ExtendTwo(s0, [spawn], spawn, bound, s0.(threads := [Idle, Idle]));
    assert [spawn] + [spawn] == [spawn, spawn];
  }

  lemma EnqueuedRun<T>(cap: Option<nat>, v: T, bound: int)
    requires cap != Some(0) && bound >= 1
    ensures Run(Fresh<T>(cap), EnqueuedSchedule(v)) == State([v], cap, false, 1, 0, [IncWrite, Idle])
    ensures Within(Fresh<T>(cap), EnqueuedSchedule(v), bound)
  {
    var s0 := Fresh<T>(cap);
    var s2 := s0.(threads := [Idle, Idle]);
    TwoThreads<T>(cap, bound);
    var a := [Turn(0, Spawn), Turn(0, Spawn)];
    ExtendTwo(s0, a, Turn(0, Push(v)), bound, s2.(queue := [v], threads := [IncAdd, Idle]));
    a := a + [Turn(0, Push(v))];
    ExtendTwo(s0, a, Turn(0, Continue), bound, State([v], cap, false, 1, 0, [IncWrite, Idle]));
    assert a + [Turn(0, Continue)] == EnqueuedSchedule(v);
  }

  lemma DrainedRun<T>(v: T, bound: int)
    requires bound >= 1
    ensures Run(Fresh<T>(None), DrainedSchedule(v)) == Stalled(v, 0)
    ensures Within(Fresh<T>(None), DrainedSchedule(v), bound)
  {
    var s0, s := Fresh<T>(None), State([v], None, false, 1, 1, [Idle, Idle]);
    EnqueuedRun(None, v, bound);
    var a := EnqueuedSchedule(v);
    ExtendTwo(s0, a, Turn(0, Continue), bound, s);
    a := a + [Turn(0, Continue)];
    ExtendTwo(s0, a, Turn(1, Pop), bound, s.(queue := [], threads := [Idle, DecLoad]));
    a := a + [Turn(1, Pop)];
    ExtendTwo(s0, a, Turn(1, Continue), bound, s.(queue := [], threads := [Idle, DecDrain]));
    a := a + [Turn(1, Continue)];
    ExtendTwo(s0, a, Turn(1, Continue), bound, Stalled(v, 0));
  }

  /** The first thread has enqueued one more value than `Stalled(v, n)` holds, and not yet incremented. */
  function Pushing<T>(v: T, n: nat): State<T> {
    State(seq(n + 1, _ => v), None, false, Wrap(n + 1), 0, [IncAdd, DecSub(1)])
  }

  lemma BurstStep<T>(v: T, n: nat)
    requires n + 1 < MODULUS
    ensures Step(Stalled(v, n), Turn(0, Push(v))) == Pushing(v, n)
    ensures Step(Pushing(v, n), Turn(0, Continue)) == Stalled(v, n + 1)
  {
    assert seq(n, _ => v) + [v] == seq(n + 1, _ => v);
    WrapStep(n + 1);
    assert Wrap(n + 1) == n + 1 != 0;
  }

  /** While the second thread is stalled, up to 2^64 - 1 pushes complete and none of them writes to the eventfd. */
  lemma {:induction false} BurstRun<T>(v: T, n: nat, bound: int)
    requires n < MODULUS && n + 1 <= bound
    ensures Run(Stalled(v, 0), Burst(v, n)) == Stalled(v, n)
    ensures Within(Stalled(v, 0), Burst(v, n), bound)
  {
    var s := Stalled(v, 0);
    if n == 0 {
      SumTwo(Holding, Idle, DecSub(1));
    } else {
      BurstRun(v, n - 1, bound);
      BurstStep(v, n - 1);
      var b := Burst(v, n - 1);
      ExtendTwo(s, b, Turn(0, Push(v)), bound, Pushing(v, n - 1));
      ExtendTwo(s, b + [Turn(0, Push(v))], Turn(0, Continue), bound, Stalled(v, n));
      assert Burst(v, n) == b + [Turn(0, Push(v))] + [Turn(0, Continue)];
    }
  }

  /** With room for 2^64 values the protocol does lose a wake-up: the stalled fetch_sub sees `pending` wrapped to 0. */
  lemma LostBeyondRange<T>(v: T) returns (schedule: Schedule<T>)
    ensures Within(Fresh<T>(None), schedule, MODULUS)
    ensures LostWakeup(Run(Fresh<T>(None), schedule))
  {
    var n := MODULUS - 1;
    DrainedRun(v, MODULUS);
    BurstRun(v, n, MODULUS);
    var a := DrainedSchedule(v) + Burst(v, n);
    WithinConcat(Fresh<T>(None), DrainedSchedule(v), Burst(v, n), MODULUS);
    RunConcat(Fresh<T>(None), DrainedSchedule(v), Burst(v, n));
    var end := Stalled(v, n).(pending := MODULUS - 1, threads := [Idle, Idle]);
    SumTwo(Holding, Idle, Idle);
    Extend(Fresh<T>(None), a, Turn(1, Continue), MODULUS, end);
    schedule := a + [Turn(1, Continue)];
    assert end.queue[0] == v;
  }

  lemma {:induction false} WithinMore<T>(s: State<T>, schedule: Schedule<T>, bound: int, more: int)
    requires ValidCounter(s.eventfd) && Within(s, schedule, bound) && bound <= more
    ensures Within(s, schedule, more)
  {
    if schedule != [] {
      WithinMore(s, schedule[..|schedule| - 1], bound, more);
    }
  }

  /** The exact range: no run that keeps within `bound` values loses a wake-up if and only if `bound` is below 2^64. */
  lemma NoLostWakeupExactly<T(!new)>(v: T, bound: nat)
    ensures (forall schedule: Schedule<T> ::
               Within(Fresh<T>(None), schedule, bound) ==> !LostWakeup(Run(Fresh<T>(None), schedule)))
      <==> bound < 0x1_0000_0000_0000_0000
  {
    if bound < MODULUS {
      forall schedule: Schedule<T> | Within(Fresh<T>(None), schedule, bound)
        ensures !LostWakeup(Run(Fresh<T>(None), schedule))
      {
        WithinMore(Fresh<T>(None), schedule, bound, MODULUS - 1);
        NoLostWakeup(None, schedule);
      }
    } else {
      var schedule := LostBeyondRange(v);
      WithinMore(Fresh<T>(None), schedule, MODULUS, bound);
      assert Within(Fresh<T>(None), schedule, bound) && LostWakeup(Run(Fresh<T>(None), schedule));
    }
  }

  // ---------- completion ----------

  /** How many more steps a call takes at most. */
  function Remaining(pc: Pc): int {
    match pc
    case Idle => 0
    case IncAdd => 2
    case IncWrite => 1
    case DecLoad => 4
    case DecDrain => 3
    case DecSub(_) => 2
    case DecRearm => 1
    case AddLoad => 2
    case AddWrite => 1
  }

  function InFlight(pc: Pc): int {
    if pc.Idle? then 0 else 1
  }

  /** No new call starts: threads only continue the calls they are in. */
  ghost predicate OnlyContinue<T>(schedule: Schedule<T>) {
    forall n :: 0 <= n < |schedule| ==> schedule[n].action.Continue?
  }

  /** Turns that moved a call forward. */
  function Progress<T>(s: State<T>, schedule: Schedule<T>): (r: nat)
    requires ValidCounter(s.eventfd)
  {
    if schedule == [] then 0
    else
      var init, last := schedule[..|schedule| - 1], schedule[|schedule| - 1];
      var before := Run(s, init);
      Progress(s, init) +
      if last.thread < |before.threads| && !before.threads[last.thread].Idle? then 1 else 0
  }

  /** Turns given to thread `t`. */
  function Turns<T>(schedule: Schedule<T>, t: nat): (r: nat) {
    if schedule == [] then 0
    else Turns(schedule[..|schedule| - 1], t) + if schedule[|schedule| - 1].thread == t then 1 else 0
  }

  lemma {:induction false} MeasureBound(threads: seq<Pc>)
    ensures 0 <= Sum(Remaining, threads) <= 4 * Sum(InFlight, threads)
  {
    if threads != [] {
      MeasureBound(threads[1..]);
    }
  }

  /** One turn uses up exactly the steps it makes; at least one if it moves a call. */
  lemma MeasureStep<T>(s: State<T>, turn: Turn<T>)
    requires ValidCounter(s.eventfd) && turn.action.Continue?
    ensures Sum(Remaining, Step(s, turn).threads) <= Sum(Remaining, s.threads)
      - if turn.thread < |s.threads| && !s.threads[turn.thread].Idle? then 1 else 0
  {
    StepSums(s, turn, Remaining);
    if turn.thread < |s.threads| && !s.threads[turn.thread].Idle? {
      assert Remaining(Step(s, turn).threads[turn.thread]) < Remaining(s.threads[turn.thread]);
    }
  }

  /**
   If no new call starts, the calls in flight take at most four steps each in all:
   every step that moves a call uses up the measure.
   */
  lemma {:induction false} CompletionMeasure<T>(s: State<T>, schedule: Schedule<T>)
    requires ValidCounter(s.eventfd) && OnlyContinue(schedule)
    ensures Progress(s, schedule) + Sum(Remaining, Run(s, schedule).threads) <= Sum(Remaining, s.threads)
    ensures Progress(s, schedule) <= 4 * Sum(InFlight, s.threads)
  {
    MeasureBound(Run(s, schedule).threads);
    MeasureBound(s.threads);
    if schedule != [] {
      var init, last := schedule[..|schedule| - 1], schedule[|schedule| - 1];
      CompletionMeasure(s, init);
      MeasureStep(Run(s, init), last);
    }
  }

  /** Each turn given to a thread brings its call one step nearer its end, whatever the others do. */
  lemma {:induction false} TurnsCount<T>(s: State<T>, schedule: Schedule<T>, t: nat)
    requires ValidCounter(s.eventfd) && OnlyContinue(schedule) && t < |s.threads|
    ensures |Run(s, schedule).threads| == |s.threads|
    ensures Remaining(Run(s, schedule).threads[t]) <=
      if Turns(schedule, t) >= Remaining(s.threads[t]) then 0 else Remaining(s.threads[t]) - Turns(schedule, t)
  {
    if schedule != [] {
      TurnsCount(s, schedule[..|schedule| - 1], t);
    }
  }

  lemma {:induction false} ContinueThreads<T>(s: State<T>, schedule: Schedule<T>)
    requires ValidCounter(s.eventfd) && OnlyContinue(schedule)
    ensures |Run(s, schedule).threads| == |s.threads|
  {
    if schedule != [] {
      ContinueThreads(s, schedule[..|schedule| - 1]);
    }
  }

  /** Four turns each are enough for every call. */
  lemma AllFinish<T>(s: State<T>, schedule: Schedule<T>)
    requires ValidCounter(s.eventfd) && OnlyContinue(schedule)
    requires forall t :: 0 <= t < |s.threads| ==> Turns(schedule, t) >= 4
    ensures AllIdle(Run(s, schedule))
  {
    ContinueThreads(s, schedule);
    forall t | 0 <= t < |s.threads|
      ensures Run(s, schedule).threads[t].Idle?
    {
      TurnsCount(s, schedule, t);
      assert Turns(schedule, t) >= 4 >= Remaining(s.threads[t]);
    }
  }

  lemma {:induction false} ContinueInv<T>(s: State<T>, schedule: Schedule<T>)
    requires Inv(s) && Items(s) < MODULUS && OnlyContinue(schedule)
    ensures Inv(Run(s, schedule)) && Items(Run(s, schedule)) <= Items(s)
    ensures Run(s, schedule).queue == s.queue
  {
    if schedule != [] {
      var init, last := schedule[..|schedule| - 1], schedule[|schedule| - 1];
      ContinueInv(s, init);
      StepInv(Run(s, init), last);
      StepSums(Run(s, init), last, Holding);
    }
  }

  /**
   From every reachable state, once no new call starts and every thread gets four more turns, in any
   order, all calls are finished, the queue is as it was, `pending` is its length, and the eventfd is
   readable if the queue is not empty.
   */
  lemma Completion<T>(cap: Option<nat>, past: Schedule<T>, rest: Schedule<T>)
    requires Within(Fresh<T>(cap), past, MODULUS - 1)
    requires OnlyContinue(rest)
    requires forall t :: 0 <= t < |Run(Fresh<T>(cap), past).threads| ==> Turns(rest, t) >= 4
    ensures var s, r := Run(Fresh<T>(cap), past), Run(Run(Fresh<T>(cap), past), rest);
      AllIdle(r) && r.queue == s.queue && r.pending == |s.queue| && (s.queue != [] ==> r.eventfd > 0)
  {
    var s := Run(Fresh<T>(cap), past);
    RunInv(cap, past, MODULUS - 1);
    ContinueInv(s, rest);
    AllFinish(s, rest);
    WeightBelowHolding(s.threads);
    QuietState(Run(s, rest));
  }

  // ---------- the converse fails ----------

  /**
   The descriptor can be readable although the queue is empty and every call is done: the producer's
   write comes after another thread has already popped its value and drained. Two threads, one value and
   no `wake` are enough, with any capacity.
   */
  lemma SpuriousWakeup<T>(cap: Option<nat>, v: T) returns (schedule: Schedule<T>)
    requires cap != Some(0)
    ensures Within(Fresh<T>(cap), schedule, 1) && Spawns(schedule) == 2 && NoWake(schedule)
    ensures var s := Run(Fresh<T>(cap), schedule);
      AllIdle(s) && s.queue == [] && s.pending == 0 && s.eventfd > 0
  {
    var s0, s := Fresh<T>(cap), State<T>.State([], cap, false, 1, 0, [IncWrite, Idle]);
    EnqueuedRun(cap, v, 1);
    schedule := EnqueuedSchedule(v);
    ExtendTwo(s0, schedule, Turn(1, Pop), 1, s.(threads := [IncWrite, DecLoad]));
    schedule := schedule + [Turn(1, Pop)];
    ExtendTwo(s0, schedule, Turn(1, Continue), 1, s.(threads := [IncWrite, DecDrain]));
    schedule := schedule + [Turn(1, Continue)];
    ExtendTwo(s0, schedule, Turn(1, Continue), 1, s.(threads := [IncWrite, DecSub(1)]));
    schedule := schedule + [Turn(1, Continue)];
    ExtendTwo(s0, schedule, Turn(1, Continue), 1, s.(pending := 0));
    schedule := schedule + [Turn(1, Continue)];
    ExtendTwo(s0, schedule, Turn(0, Continue), 1, s.(pending := 0, eventfd := 1, threads := [Idle, Idle]));
    schedule := schedule + [Turn(0, Continue)];
    ThreadsAreSpawns(cap, schedule);
  }

  /**
   A second cause, with no late producer: two pops that overlap both load 2, so neither drains,
   and they leave an empty queue behind a readable descriptor.
   */
  lemma SpuriousAfterPops<T>(v: T) returns (schedule: Schedule<T>)
    ensures Within(Fresh<T>(None), schedule, 2)
    ensures var s := Run(Fresh<T>(None), schedule);
      AllIdle(s) && s.queue == [] && s.pending == 0 && s.eventfd > 0
  {
    schedule := TwoPushed(v);
    var s0, s := Fresh<T>(None), State([v, v], None, false, 2, 1, [Idle, Idle]);
    ExtendTwo(s0, schedule, Turn(0, Pop), 2, s.(queue := [v], threads := [DecLoad, Idle]));
    schedule := schedule + [Turn(0, Pop)];
    ExtendTwo(s0, schedule, Turn(1, Pop), 2, s.(queue := [], threads := [DecLoad, DecLoad]));
    schedule := schedule + [Turn(1, Pop)];
    ExtendTwo(s0, schedule, Turn(0, Continue), 2, s.(queue := [], threads := [DecSub(2), DecLoad]));
    schedule := schedule + [Turn(0, Continue)];
    ExtendTwo(s0, schedule, Turn(1, Continue), 2, s.(queue := [], threads := [DecSub(2), DecSub(2)]));
    schedule := schedule + [Turn(1, Continue)];
    ExtendTwo(s0, schedule, Turn(0, Continue), 2, s.(queue := [], pending := 1, threads := [Idle, DecSub(2)]));
    schedule := schedule + [Turn(0, Continue)];
    ExtendTwo(s0, schedule, Turn(1, Continue), 2, s.(queue := [], pending := 0));
    schedule := schedule + [Turn(1, Continue)];
  }

  /** Two pushes by the first of two threads. */
  lemma TwoPushed<T>(v: T) returns (schedule: Schedule<T>)
    ensures Within(Fresh<T>(None), schedule, 2)
    ensures Run(Fresh<T>(None), schedule) == State([v, v], None, false, 2, 1, [Idle, Idle])
  {
    var s0, s := Fresh<T>(None), State([v, v], None, false, 1, 1, [IncAdd, Idle]);
    EnqueuedRun(None, v, 2);
    schedule := EnqueuedSchedule(v);
    ExtendTwo(s0, schedule, Turn(0, Continue), 2, s.(queue := [v], threads := [Idle, Idle]));
    schedule := schedule + [Turn(0, Continue)];
    ExtendTwo(s0, schedule, Turn(0, Push(v)), 2, s);
    schedule := schedule + [Turn(0, Push(v))];
    ExtendTwo(s0, schedule, Turn(0, Continue), 2, s.(pending := 2, threads := [Idle, Idle]));
    schedule := schedule + [Turn(0, Continue)];
  }
}
