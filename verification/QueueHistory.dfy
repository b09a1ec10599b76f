/**
 What is in the queue, decided by the history of a run: which pushes and pops have succeeded, in which order, and
 whether the queue has been closed. Any number of threads, any schedule.
 */
module QueueHistory {
  import opened Wrappers
  import opened Waker
  import opened QueueProtocol
  import opened QueueRuns
  import opened QueueSequential

  /** The values pushed so far, in order, how many of them have been popped, and whether the queue was closed. */
  datatype History<T> = History(pushed: seq<T>, popped: nat, closed: bool)

  /** What a call adds to the history. The queue is not consulted, only how much went in and out. */
  function Recorded<T>(h: History<T>, cap: Option<nat>, a: Action<T>): History<T> {
    match a
    case Push(v) =>
      if h.closed || (cap.Some? && |h.pushed| - h.popped >= cap.value) then h else h.(pushed := h.pushed + [v])
    case Pop => if h.popped < |h.pushed| then h.(popped := h.popped + 1) else h
    case Close => h.(closed := true)
    case _ => h
  }

  /** The history of a run from `s`; a call counts when it begins, which is when it touches the queue. */
  function Recall<T>(s: State<T>, schedule: Schedule<T>): History<T>
    requires ValidCounter(s.eventfd)
  {
    if schedule == [] then History(s.queue, 0, s.closed)
    else
      var init, last := schedule[..|schedule| - 1], schedule[|schedule| - 1];
      var h := Recall(s, init);
      if Begins(Run(s, init), last) then Recorded(h, s.cap, last.action) else h
  }

  ghost predicate Remembers<T>(h: History<T>, cap: Option<nat>, s: State<T>) {
    && h.popped <= |h.pushed| && s.queue == h.pushed[h.popped..]
    && s.closed == h.closed && s.cap == cap
  }

  lemma StepRemembers<T>(h: History<T>, s: State<T>, turn: Turn<T>)
    requires ValidCounter(s.eventfd) && Remembers(h, s.cap, s)
    ensures Remembers(if Begins(s, turn) then Recorded(h, s.cap, turn.action) else h, s.cap, Step(s, turn))
  {
    if Begins(s, turn) && turn.action.Push? {
      assert (h.pushed + [turn.action.value])[h.popped..] == s.queue + [turn.action.value];
    }
  }

  /**
   First in, first out, in every run: the queue holds the values pushed, in the order pushed, without as many of the
   first ones as have been popped. It is closed if and only if some thread has closed it, and then takes no more.
   */
  lemma {:induction false} QueueByHistory<T>(s: State<T>, schedule: Schedule<T>)
    requires ValidCounter(s.eventfd)
    ensures Remembers(Recall(s, schedule), s.cap, Run(s, schedule))
  {
    if schedule != [] {
      var init := schedule[..|schedule| - 1];
      QueueByHistory(s, init);
      StepRemembers(Recall(s, init), Run(s, init), schedule[|schedule| - 1]);
    }
  }

  lemma {:induction false} ClosedForGood<T>(s: State<T>, schedule: Schedule<T>)
    requires ValidCounter(s.eventfd) && s.closed
    ensures Recall(s, schedule).closed && Recall(s, schedule).pushed == s.queue
  {
    if schedule != [] {
      ClosedForGood(s, schedule[..|schedule| - 1]);
    }
  }

  /** After a `close` by an idle thread nothing is added any more, whatever the threads do; what is left can go out. */
  lemma NothingAfterClose<T>(s: State<T>, t: nat, later: Schedule<T>)
    requires ValidCounter(s.eventfd) && t < |s.threads| && s.threads[t].Idle?
    ensures var closed := Step(s, Turn(t, Close));
      var h := Recall(closed, later);
      && closed == s.(closed := true)
      && h.popped <= |s.queue| && Run(closed, later).queue == s.queue[h.popped..]
      && Run(closed, later).closed
  {
    var closed := Step(s, Turn(t, Close));
    ClosedForGood(closed, later);
    QueueByHistory(closed, later);
  }
}
