/**
 `Queue` as an object, one call at a time. Each method is proved to do what the protocol of
 `QueueProtocol` does when a thread runs that call from start to end and no other thread steps.
 */
module Queue {
  import opened Words
  import opened Wrappers
  import opened Waker
  import opened Subsequences
  import opened QueueProtocol
  import opened QueueRuns
  import opened QueueSequential

  // ---------- a call that runs alone ----------

  /** Thread `t` exists. */
  ghost predicate Has<T>(s: State<T>, t: nat) {
    ValidCounter(s.eventfd) && t < |s.threads|
  }

  /** The protocol run on by thread `t` alone until that is idle again. */
  function Finish<T>(s: State<T>, t: nat): (r: State<T>)
    requires Has(s, t)
    ensures Has(r, t) && r.threads[t].Idle?
    decreases Remaining(s.threads[t])
  {
    if s.threads[t].Idle? then s else Finish(Step(s, Turn(t, Continue)), t)
  }

  /** A call some thread can make. */
  type Call<T> = a: Action<T> | !a.Continue? && !a.Spawn? witness Pop

  /** A whole call by thread `t` during which no other thread takes a step. */
  function Alone<T>(s: State<T>, t: nat, a: Call<T>): (r: State<T>)
    requires Has(s, t)
    ensures Has(r, t) && r.threads[t].Idle?
  {
    Finish(Step(s, Turn(t, a)), t)
  }

  /** `n` turns in which thread `t` continues. */
  function Continues<T>(t: nat, n: nat): Schedule<T> {
    if n == 0 then [] else [Turn(t, Continue)] + Continues(t, n - 1)
  }

  lemma RunFirst<T>(s: State<T>, turn: Turn<T>, rest: Schedule<T>)
    requires ValidCounter(s.eventfd)
    ensures Run(s, [turn] + rest) == Run(Step(s, turn), rest)
  {
    OneTurn(s, turn);
    RunConcat(s, [turn], rest);
  }

  lemma {:induction false} FinishIsRun<T>(s: State<T>, t: nat, n: nat)
    requires Has(s, t) && n >= Remaining(s.threads[t])
    ensures Run(s, Continues(t, n)) == Finish(s, t)
    decreases n
  {
    if n > 0 {
      RunFirst(s, Turn(t, Continue), Continues(t, n - 1));
      StepFinish(s, t);
      FinishIsRun(Step(s, Turn(t, Continue)), t, n - 1);
    }
  }

  lemma StepFinish<T>(s: State<T>, t: nat)
    requires Has(s, t)
    ensures var r := Step(s, Turn(t, Continue));
      && Has(r, t) && Finish(r, t) == Finish(s, t)
      && Remaining(r.threads[t]) <= if s.threads[t].Idle? then 0 else Remaining(s.threads[t]) - 1
  {
    var r := Step(s, Turn(t, Continue));
    if s.threads[t].Idle? {
      assert r == s;
    } else {
      assert Finish(s, t) == Finish(r, t);
    }
  }

  /** The call alone is a run of the protocol: the call and four more turns of its thread, or more than it needs. */
  lemma AloneIsRun<T>(s: State<T>, t: nat, a: Call<T>, n: nat)
    requires Has(s, t) && n >= 4
    ensures Run(s, [Turn(t, a)] + Continues(t, n)) == Alone(s, t, a)
  {
    RunFirst(s, Turn(t, a), Continues(t, n));
    FinishIsRun(Step(s, Turn(t, a)), t, n);
  }

  /** Whole calls one after the other do not overlap. */
  lemma AloneNoOverlap<T>(s: State<T>, past: Schedule<T>, t: nat, a: Call<T>, n: nat)
    requires ValidCounter(s.eventfd) && NoOverlap(s, past) && AllIdle(Run(s, past))
    ensures NoOverlap(s, past + [Turn(t, a)] + Continues(t, n))
  {
    assert (past + [Turn(t, a)])[..|past + [Turn(t, a)]| - 1] == past;
    ContinuesNoOverlap(s, past + [Turn(t, a)], t, n);
  }

  lemma ContinueNoOverlap<T>(s: State<T>, past: Schedule<T>, t: nat)
    requires ValidCounter(s.eventfd) && NoOverlap(s, past)
    ensures NoOverlap(s, past + [Turn(t, Continue)])
  {
    assert (past + [Turn(t, Continue)])[..|past + [Turn(t, Continue)]| - 1] == past;
  }

  lemma {:induction false} ContinuesNoOverlap<T>(s: State<T>, past: Schedule<T>, t: nat, n: nat)
    requires ValidCounter(s.eventfd) && NoOverlap(s, past)
    ensures NoOverlap(s, past + Continues(t, n))
    decreases n
  {
    if n == 0 {
      assert past + Continues(t, n) == past;
    } else {
      ContinueNoOverlap(s, past, t);
      ContinuesNoOverlap(s, past + [Turn(t, Continue)], t, n - 1);
      Associative(past, [Turn(t, Continue)], Continues(t, n - 1));
    }
  }

  /**
   The net effect of a call that runs alone: a push announces work only when `pending` was 0, a pop
   drains exactly when it takes the last counted value, and `dec` never re-arms.
   */
  function Effect<T>(s: State<T>, a: Call<T>): State<T>
    requires ValidCounter(s.eventfd)
  {
    match a
    case Push(v) =>
      if s.closed || Full(s) then s
      else s.(queue := s.queue + [v], pending := Wrap(s.pending + 1),
        eventfd := if s.pending == 0 then Signal(s.eventfd) else s.eventfd)
    case Pop =>
      if s.queue == [] then s
      else s.(queue := s.queue[1..], pending := Wrap(s.pending - 1),
        eventfd := if s.pending == 1 then 0 else s.eventfd)
    case Wake => s.(eventfd := Signal(s.eventfd))
    case Add => s.(eventfd := if s.pending > 0 then Signal(s.eventfd) else s.eventfd)
    case Close => s.(closed := true)
  }

  lemma FinishSub<T>(s: State<T>, t: nat, first: nat)
    requires Has(s, t) && s.threads[t] == DecSub(first) && s.pending == first
    ensures Finish(s, t) == s.(pending := Wrap(s.pending - 1), threads := s.threads[t := Idle])
  {
    assert Step(s, Turn(t, Continue)) == s.(pending := Wrap(s.pending - 1), threads := s.threads[t := Idle]);
  }

  lemma FinishDec<T>(s: State<T>, t: nat)
    requires Has(s, t) && s.threads[t] == DecLoad
    ensures Finish(s, t) == s.(
      pending := Wrap(s.pending - 1), eventfd := if s.pending == 1 then 0 else s.eventfd,
      threads := s.threads[t := Idle])
  {
    var s1 := Step(s, Turn(t, Continue));
    if s.pending == 1 {
      assert s1 == s.(threads := s.threads[t := DecDrain]);
      var s2 := Step(s1, Turn(t, Continue));
      assert s2 == s.(eventfd := 0, threads := s.threads[t := DecSub(1)]);
      FinishSub(s2, t, 1);
      assert s2.threads[t := Idle] == s.threads[t := Idle];
    } else {
      assert s1 == s.(threads := s.threads[t := DecSub(s.pending)]);
      FinishSub(s1, t, s.pending);
      assert s1.threads[t := Idle] == s.threads[t := Idle];
    }
  }

  lemma FinishWrite<T>(s: State<T>, t: nat)
    requires Has(s, t) && (s.threads[t] == IncWrite || s.threads[t] == AddWrite)
    ensures Finish(s, t) == s.(eventfd := Signal(s.eventfd), threads := s.threads[t := Idle])
  {
    assert Step(s, Turn(t, Continue)) == s.(eventfd := Signal(s.eventfd), threads := s.threads[t := Idle]);
  }

  lemma FinishInc<T>(s: State<T>, t: nat)
    requires Has(s, t) && s.threads[t] == IncAdd
    ensures Finish(s, t) == s.(
      pending := Wrap(s.pending + 1), eventfd := if s.pending == 0 then Signal(s.eventfd) else s.eventfd,
      threads := s.threads[t := Idle])
  {
    var s1 := Step(s, Turn(t, Continue));
    if s.pending == 0 {
      assert s1 == s.(pending := Wrap(s.pending + 1), threads := s.threads[t := IncWrite]);
      FinishWrite(s1, t);
      assert s1.threads[t := Idle] == s.threads[t := Idle];
    } else {
      assert s1 == s.(pending := Wrap(s.pending + 1), threads := s.threads[t := Idle]);
    }
  }

  lemma FinishAdd<T>(s: State<T>, t: nat)
    requires Has(s, t) && s.threads[t] == AddLoad
    ensures Finish(s, t) == s.(
      eventfd := if s.pending > 0 then Signal(s.eventfd) else s.eventfd, threads := s.threads[t := Idle])
  {
    var s1 := Step(s, Turn(t, Continue));
    if s.pending > 0 {
      assert s1 == s.(threads := s.threads[t := AddWrite]);
      FinishWrite(s1, t);
      assert s1.threads[t := Idle] == s.threads[t := Idle];
    } else {
      assert s1 == s.(threads := s.threads[t := Idle]);
    }
  }

  /** A call that runs alone, step by step through the protocol, among any other threads, has exactly its net effect. */
  lemma AloneEffect<T>(s: State<T>, t: nat, a: Call<T>)
    requires Has(s, t) && s.threads[t].Idle?
    ensures Alone(s, t, a) == Effect(s, a)
  {
    var s1 := Step(s, Turn(t, a));
    match a
    case Push(v) =>
      if !s.closed && !Full(s) {
        assert s1 == s.(queue := s.queue + [v], threads := s.threads[t := IncAdd]);
        FinishInc(s1, t);
        assert s1.threads[t := Idle] == s.threads;
      }
    case Pop =>
      if s.queue != [] {
        assert s1 == s.(queue := s.queue[1..], threads := s.threads[t := DecLoad]);
        FinishDec(s1, t);
        assert s1.threads[t := Idle] == s.threads;
      }
    case Add =>
      assert s1 == s.(threads := s.threads[t := AddLoad]);
      FinishAdd(s1, t);
      assert s1.threads[t := Idle] == s.threads;
    case Wake =>
    case Close =>
  }

  /**
   What a whole call leaves behind, clause by clause: the queue, whether it is closed, the counter as a 64-bit word that
   wraps, and the eventfd.
   */
  lemma AloneDoes<T>(s: State<T>, t: nat, a: Call<T>)
    requires Has(s, t) && s.threads[t].Idle? && s.pending < 0x1_0000_0000_0000_0000
    ensures var r := Alone(s, t, a);
      && r.threads == s.threads && r.cap == s.cap
      && r.closed == (s.closed || a.Close?)
      && (a.Push? && !s.closed && (s.cap.Some? ==> |s.queue| < s.cap.value) ==>
            && r.queue == s.queue + [a.value]
            && r.pending == (if s.pending == 0xFFFF_FFFF_FFFF_FFFF then 0 else s.pending + 1)
            && r.eventfd == (if s.pending == 0 then Signal(s.eventfd) else s.eventfd))
      && (a.Pop? && s.queue != [] ==>
            && s.queue == [s.queue[0]] + r.queue
            && r.pending == (if s.pending == 0 then 0xFFFF_FFFF_FFFF_FFFF else s.pending - 1)
            && r.eventfd == (if s.pending == 1 then 0 else s.eventfd))
      && (a.Push? && (s.closed || (s.cap.Some? && |s.queue| >= s.cap.value)) ==> r == s)
      && (a.Pop? && s.queue == [] ==> r == s)
      && (a.Wake? || a.Add? || a.Close? ==> r.queue == s.queue && r.pending == s.pending)
      && (a.Wake? || (a.Add? && s.pending > 0) ==> r.eventfd == Signal(s.eventfd) > 0)
      && ((a.Add? && s.pending == 0) || a.Close? ==> r.eventfd == s.eventfd)
  {
    AloneEffect(s, t, a);
  }

  // ---------- add among other threads ----------

  /** None of the turns is thread `t`'s, though threads may be added. */
  ghost predicate Others<T>(schedule: Schedule<T>, t: nat) {
    forall n :: 0 <= n < |schedule| ==> schedule[n].action.Spawn? || schedule[n].thread != t
  }

  lemma OtherLeaves<T>(s: State<T>, turn: Turn<T>, t: nat)
    requires Has(s, t) && (turn.action.Spawn? || turn.thread != t)
    ensures var r := Step(s, turn); Has(r, t) && r.threads[t] == s.threads[t]
  {
  }

  lemma {:induction false} OthersLeave<T>(s: State<T>, schedule: Schedule<T>, t: nat)
    requires Has(s, t) && Others(schedule, t)
    ensures var r := Run(s, schedule); Has(r, t) && r.threads[t] == s.threads[t]
  {
    if schedule != [] {
      var init, last := schedule[..|schedule| - 1], schedule[|schedule| - 1];
      OthersLeave(s, init, t);
      OtherLeaves(Run(s, init), last, t);
    }
  }

  /**
   Registering a queue with epoll while any number of other threads go on using it: thread `t` begins, loads after the
   others' turns `b`, and if it finds values counted writes after the others' turns `c`. Right after that write the
   descriptor is readable.
   */
  lemma AddAnnounces<T>(s: State<T>, t: nat, b: Schedule<T>, c: Schedule<T>)
    requires Has(s, t) && s.threads[t].Idle? && Others(b, t) && Others(c, t)
    ensures
      var loading := Run(Step(s, Turn(t, Add)), b);
      var loaded := Step(loading, Turn(t, Continue));
      Has(loading, t) &&
      if loading.pending == 0 then loaded == loading.(threads := loading.threads[t := Idle])
      else
        && loaded == loading.(threads := loaded.threads)
        && var writing := Run(loaded, c);
           var r := Step(writing, Turn(t, Continue));
           && Has(writing, t) && r.eventfd > 0
           && r == writing.(eventfd := Signal(writing.eventfd), threads := writing.threads[t := Idle])
  {
    var s1 := Step(s, Turn(t, Add));
    OthersLeave(s1, b, t);
    var loaded := Step(Run(s1, b), Turn(t, Continue));
    OthersLeave(loaded, c, t);
  }

  /** One whole call, by any thread, from a quiet state. */
  lemma ExactStep<T>(s: State<T>, t: nat, a: Call<T>, stale: bool)
    requires Quiet(s) && t < |s.threads| && |s.queue| + 1 < MODULUS
    requires s.eventfd > 0 <==> s.queue != [] || stale
    ensures var r := Alone(s, t, a);
      && Quiet(r) && |r.queue| <= |s.queue| + 1
      && (r.eventfd > 0 <==> r.queue != [] || StaleAfter(s, Turn(t, a), stale))
  {
    AloneEffect(s, t, a);
  }

  // ---------- the object ----------

  datatype PushError<+T> = PushFull(value: T) | PushClosed(value: T)

  datatype PopError = PopEmpty | PopClosed

  /** The concurrent FIFO: refuses values when closed or full, and hands out what is left after closing. */
  class ConcurrentQueue<T> {
    const cap: Option<nat>
    var items: seq<T>
    var closed: bool

    constructor (cap: Option<nat>)
      requires cap != Some(0)
      ensures this.cap == cap && items == [] && !closed
    {
      this.cap := cap;
      items := [];
      closed := false;
    }

    method Push(value: T) returns (r: Result<(), PushError<T>>)
      modifies this
      ensures closed == old(closed)
      ensures old(closed) ==> r == Err(PushClosed(value))
      ensures !old(closed) && cap.Some? && |old(items)| >= cap.value ==> r == Err(PushFull(value))
      ensures !old(closed) && (cap.Some? ==> |old(items)| < cap.value) ==> r == Ok(())
      ensures items == if r.Ok? then old(items) + [value] else old(items)
    {
      if closed {
        return Err(PushClosed(value));
      }
      if cap.Some? && |items| >= cap.value {
        return Err(PushFull(value));
      }
      items := items + [value];
      r := Ok(());
    }

    method Pop() returns (r: Result<T, PopError>)
      modifies this
      ensures closed == old(closed)
      ensures old(items) == [] ==> r == Err(if old(closed) then PopClosed else PopEmpty) && items == []
      ensures old(items) != [] ==> r == Ok(old(items)[0]) && items == old(items)[1..]
    {
      if items == [] {
        return Err(if closed then PopClosed else PopEmpty);
      }
      r := Ok(items[0]);
      items := items[1..];
    }

    method Close() returns (r: bool)
      modifies this
      ensures closed && items == old(items) && r == !old(closed)
    {
      r := !closed;
      closed := true;
    }
  }

  class Queue<T> {
    const queue: ConcurrentQueue<T>
    var pending: nat
    const waker: Waker

    ghost predicate Valid()
      reads this, waker.inner
    {
      pending < MODULUS && ValidCounter(waker.inner.counter)
    }

    /** The protocol state this object is in while no call runs. */
    ghost function View(): (s: State<T>)
      reads this, queue, waker.inner
    {
      State(queue.items, queue.cap, queue.closed, pending, waker.inner.counter, [Idle])
    }

    constructor (cap: Option<nat>)
      requires cap != Some(0)
      ensures Valid() && fresh(queue) && fresh(waker.inner)
      ensures View() == Fresh<T>(cap).(threads := [Idle])
      ensures Quiet(View())
    {
      queue := new ConcurrentQueue(cap);
      pending := 0;
      waker := new Waker();
    }

    method Inc() returns (r: Result<(), IoError>)
      requires Valid()
      modifies this, waker.inner
      ensures Valid() && r == Ok(())
      ensures pending == if old(pending) == 0xFFFF_FFFF_FFFF_FFFF then 0 else old(pending) + 1
      ensures waker.inner.counter ==
        if old(pending) == 0 then Signal(old(waker.inner.counter)) else old(waker.inner.counter)
    {
      var cnt := pending;
      pending := Wrap(pending + 1);
      if 0 == cnt {
        r := waker.SetReadiness(READABLE);
        if r.Err? {
          return;
        }
      }
      r := Ok(());
    }

    method Dec() returns (r: Result<(), IoError>)
      requires Valid()
      modifies this, waker.inner
      ensures Valid() && r == Ok(())
      ensures pending == if old(pending) == 0 then 0xFFFF_FFFF_FFFF_FFFF else old(pending) - 1
      ensures waker.inner.counter == if old(pending) == 1 then 0 else old(waker.inner.counter)
    {
      var first := pending;
      if first == 1 {
        r := waker.SetReadiness(EMPTY);
        if r.Err? {
          return;
        }
      }
      var second := pending;
      pending := Wrap(pending - 1);
      r := Rearm(first, second);
    }

    /** The end of `dec`: what was drained too early is announced again. Others may act between load and fetch_sub. */
    method Rearm(first: nat, second: nat) returns (r: Result<(), IoError>)
      requires Valid()
      modifies waker.inner
      ensures Valid() && r == Ok(())
      ensures waker.inner.counter ==
        if first == 1 && second > 1 then Signal(old(waker.inner.counter)) else old(waker.inner.counter)
    {
      if first == 1 && second > 1 {
        r := waker.SetReadiness(READABLE);
        if r.Err? {
          return;
        }
      }
      r := Ok(());
    }

    method Push(value: T) returns (r: Result<(), PushError<T>>)
      requires Valid()
      modifies this, queue, waker.inner
      ensures Valid()
      ensures View() == Alone(old(View()), 0, Action.Push(value))
      ensures r == if old(queue.closed) then Err(PushClosed(value))
                   else if queue.cap.Some? && |old(queue.items)| >= queue.cap.value then Err(PushFull(value))
                   else Ok(())
      ensures r.Err? ==> View() == old(View())
      ensures r.Ok? ==>
        && queue.items == old(queue.items) + [value]
        && pending == (if old(pending) == 0xFFFF_FFFF_FFFF_FFFF then 0 else old(pending) + 1)
        && waker.inner.counter ==
           (if old(pending) == 0 then Signal(old(waker.inner.counter)) else old(waker.inner.counter))
      ensures queue.closed == old(queue.closed)
    {
      r := queue.Push(value);
      if r.Ok? {
        var _ := Inc();
      }
      AloneEffect(old(View()), 0, Action.Push(value));
    }

    method Pop() returns (r: Result<T, PopError>)
      requires Valid()
      modifies this, queue, waker.inner
      ensures Valid()
      ensures View() == Alone(old(View()), 0, Action.Pop)
      ensures r == if old(queue.items) != [] then Ok(old(queue.items)[0])
                   else Err(if old(queue.closed) then PopClosed else PopEmpty)
      ensures r.Err? ==> View() == old(View())
      ensures r.Ok? ==>
        && queue.items == old(queue.items)[1..]
        && pending == (if old(pending) == 0 then 0xFFFF_FFFF_FFFF_FFFF else old(pending) - 1)
        && waker.inner.counter == (if old(pending) == 1 then 0 else old(waker.inner.counter))
      ensures queue.closed == old(queue.closed)
    {
      r := queue.Pop();
      if r.Ok? {
        var _ := Dec();
      }
      AloneEffect(old(View()), 0, Action.Pop);
    }

    method Wake() returns (r: Result<(), IoError>)
      requires Valid()
      modifies waker.inner
      ensures Valid() && r == Ok(())
      ensures View() == Alone(old(View()), 0, Action.Wake)
      ensures waker.inner.counter == Signal(old(waker.inner.counter)) > 0
    {
      r := waker.SetReadiness(READABLE);
      AloneEffect(old(View()), 0, Action.Wake);
    }

    /** `Source::add`, after the descriptor has been registered with epoll. */
    method Add() returns (r: Result<(), IoError>)
      requires Valid()
      modifies waker.inner
      ensures Valid() && r == Ok(())
      ensures View() == Alone(old(View()), 0, Action.Add)
      ensures pending > 0 ==> waker.inner.counter == Signal(old(waker.inner.counter)) > 0
      ensures pending == 0 ==> waker.inner.counter == old(waker.inner.counter)
    {
      if pending > 0 {
        r := waker.SetReadiness(READABLE);
        if r.Err? {
          return;
        }
      }
      r := Ok(());
      AloneEffect(old(View()), 0, Action.Add);
    }

    method Close() returns (r: bool)
      requires Valid()
      modifies queue
      ensures Valid() && r == !old(queue.closed)
      ensures View() == Alone(old(View()), 0, Action.Close)
      ensures queue.closed && queue.items == old(queue.items)
    {
      r := queue.Close();
      AloneEffect(old(View()), 0, Action.Close);
    }
  }
}
