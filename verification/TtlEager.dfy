/**
 Lazy expiry against eager expiry. `Eager` is the reference: a cache that deletes each entry the
 moment it expires and never looks at a deadline otherwise. The two are compared over whole runs.
 */
module TtlEager {
  import opened Wrappers
  import opened TtlMap
  import opened TtlRuns

  /** An entry that arrives past its deadline is deleted before it can push out anything. */
  function Eager<K(==), V>(s: Cache<K, V>, op: Op<K, V>, now: int): (Cache<K, V>, Reply<K, V>) {
    var m := Live(s.entries, now);
    match op
    case Insert(k, _, _, _) =>
      (s.(entries := DropOldestOver(Live(Pushed(m, Incoming(op)), now), s.cap)), Value(ValueOf(Lookup(m, k))))
    case Get(k) => (s.(entries := m), Value(ValueOf(Lookup(m, k))))
    case GetMut(k, w) =>
      var found := Lookup(m, k);
      (s.(entries := if found.Some? then Overwrite(m, k, found.value.(value := w)) else m), Value(ValueOf(found)))
    case ContainsKey(k) => (s.(entries := m), Flag(Lookup(m, k).Some?))
    case Remove(k) => (s.(entries := ShiftRemove(m, k)), Value(ValueOf(Lookup(m, k))))
    case SetCapacity(c) => (Cache(Youngest(m, c), c), Done)
    case Clear => (s.(entries := []), Done)
    case Iter => (s.(entries := m), Items(PairsOf(m)))
    case EntryGet(k, w) => (s.(entries := Rewritten(m, k, w)), Value(ValueOf(Lookup(m, k))))
    case EntryInsert(k, _, _, _) =>
      match Lookup(m, k)
      case Some(prev) => (s.(entries := Live(Overwrite(m, k, Incoming(op)), now)), Value(Some(prev.value)))
      case None => (s.(entries := Live(m + [Incoming(op)], now)), Value(None))
  }

  function EagerRun<K(==), V>(cap: nat, run: seq<Timed<K, V>>): Cache<K, V> {
    if run == [] then Cache([], cap)
    else
      var last := run[|run| - 1];
      Eager(EagerRun(cap, run[..|run| - 1]), last.op, last.now).0
  }

  // ---------- one step ----------

  /** The eager cache holds exactly the live entries of the lazy one. */
  ghost predicate Agree<K, V>(s: Cache<K, V>, e: Cache<K, V>, now: int) {
    e == s.(entries := Live(s.entries, now))
  }

  /** Evicting the oldest entry of a map is evicting its oldest live one. */
  predicate FairEviction<K, V>(full: seq<Entry<K, V>>, cap: nat, now: int) {
    |full| > cap ==> (!Expired(full[0], now) <==> |Live(full, now)| > cap)
  }

  /** Cutting a map to its youngest entries drops nothing live, or keeps nothing expired. */
  predicate FairCut<K, V>(m: seq<Entry<K, V>>, c: nat, now: int) {
    |m| > c ==> Live(m[..|m| - c], now) == [] || |Live(m[|m| - c..], now)| == c
  }

  /** When expired entries do no harm; decided by the map, the operation and the clock before the operation. */
  predicate Fair<K(==), V>(s: Cache<K, V>, op: Op<K, V>, now: int) {
    match op
    case Insert(_, _, _, _) => FairEviction(Pushed(s.entries, Incoming(op)), s.cap, now)
    case SetCapacity(c) => FairCut(s.entries, c, now)
    case _ => true
  }

  lemma LivePushed<K, V>(m: seq<Entry<K, V>>, e: Entry<K, V>, now: int)
    ensures Live(Pushed(Live(m, now), e), now) == Live(Pushed(m, e), now)
  {
    LiveConcat(ShiftRemove(m, e.key), [e], now);
    LiveConcat(ShiftRemove(Live(m, now), e.key), [e], now);
    LiveRemove(m, e.key, now);
    LiveRemove(Live(m, now), e.key, now);
    LiveLater(m, now, now);
  }

  /** Evicting the oldest keeps lazy and eager together in the fair case; in the other case one has an entry more. */
  lemma EvictAgree<K, V>(full: seq<Entry<K, V>>, cap: nat, now: int)
    ensures var e, l := DropOldestOver(Live(full, now), cap), Live(DropOldestOver(full, cap), now);
      if FairEviction(full, cap, now) then e == l else |e| != |l|
  {
    if |full| > cap && !Expired(full[0], now) {
      assert Live(full, now)[1..] == Live(full[1..], now);
    }
  }

  /** Likewise for a smaller capacity. */
  lemma ShrinkAgree<K, V>(m: seq<Entry<K, V>>, c: nat, now: int)
    ensures var e, l := Youngest(Live(m, now), c), Live(Youngest(m, c), now);
      if FairCut(m, c, now) then e == l else |e| != |l|
  {
    if |m| > c {
      var dropped, kept := m[..|m| - c], m[|m| - c..];
      assert m == dropped + kept;
      LiveConcat(dropped, kept, now);
      YoungestConcat(Live(dropped, now), Live(kept, now), c);
    }
  }

  lemma YoungestConcat<K, V>(d: seq<Entry<K, V>>, k: seq<Entry<K, V>>, c: nat)
    requires |k| <= c
    ensures if d == [] || |k| == c then Youngest(d + k, c) == k else |Youngest(d + k, c)| > |k|
  {
    if d == [] {
      assert d + k == k;
    } else if |k| == c {
      assert (d + k)[|d + k| - c..] == k;
    }
  }

  /** Overwriting and dropping what is expired, in either order. */
  lemma {:induction false} LiveOverwrite<K, V>(m: seq<Entry<K, V>>, k: K, e: Entry<K, V>, now: int)
    requires Unique(m)
    requires Lookup(m, k).Some? ==> !Expired(Lookup(m, k).value, now)
    ensures Live(Overwrite(m, k, e), now) == Live(Overwrite(Live(m, now), k, e), now)
  {
    if m != [] {
      SliceUnique(m, 1);
      if m[0].key == k {
        assert k !in Keys(m[1..]) by {
          assert Keys(m)[0] == k && Keys(m[1..]) == Keys(m)[1..];
        }
        LookupKeys(m[1..], k);
      }
      LiveOverwrite(m[1..], k, e, now);
      assert Overwrite(m, k, e)[1..] == Overwrite(m[1..], k, e);
      if !Expired(m[0], now) {
        assert Live(m, now)[1..] == Live(m[1..], now);
        assert Overwrite(Live(m, now), k, e)[1..] == Overwrite(Live(m[1..], now), k, e);
      }
    }
  }

  /** An overwritten live entry that stays live leaves nothing to delete. */
  lemma {:induction false} OverwriteLive<K, V>(m: seq<Entry<K, V>>, k: K, e: Entry<K, V>, now: int)
    requires Live(m, now) == m && !Expired(e, now)
    ensures Live(Overwrite(m, k, e), now) == Overwrite(m, k, e)
  {
    if m != [] {
      AllLive(m, now);
      AllLive(m[1..], now);
      OverwriteLive(m[1..], k, e, now);
      assert Overwrite(m, k, e)[1..] == Overwrite(m[1..], k, e);
    }
  }

  lemma {:induction false} RemoveAbsent<K, V>(m: seq<Entry<K, V>>, k: K)
    requires k !in Keys(m)
    ensures ShiftRemove(m, k) == m
  {
    if m != [] {
      assert Keys(m) == [m[0].key] + Keys(m[1..]);
      RemoveAbsent(m[1..], k);
    }
  }

  lemma InsertAgree<K, V>(s: Cache<K, V>, e: Cache<K, V>, t: int, op: Op<K, V>, now: int)
    requires Unique(s.entries) && Agree(s, e, t) && t <= now && op.Insert?
    ensures var l, g := Lazy(s, op, now), Eager(e, op, now);
      g.1 == l.1 && if Fair(s, op, now) then Agree(l.0, g.0, now) else |Live(l.0.entries, now)| != |g.0.entries|
  {
    LiveLater(s.entries, t, now);
    LiveLookup(s.entries, op.key, now);
    LivePushed(s.entries, Incoming(op), now);
    EvictAgree(Pushed(s.entries, Incoming(op)), s.cap, now);
  }

  lemma LookupAgree<K, V>(s: Cache<K, V>, e: Cache<K, V>, t: int, op: Op<K, V>, now: int)
    requires Unique(s.entries) && Agree(s, e, t) && t <= now
    requires op.Get? || op.GetMut? || op.ContainsKey? || op.Remove?
    ensures Eager(e, op, now).1 == Lazy(s, op, now).1
    ensures Agree(Lazy(s, op, now).0, Eager(e, op, now).0, now)
  {
    var m, k := s.entries, op.key;
    LiveLater(m, t, now);
    LiveLookup(m, k, now);
    LiveRemove(m, k, now);
    LookupKeys(m, k);
    if op.GetMut? && Fresh(Lookup(m, k), now).Some? {
      var w := Lookup(m, k).value.(value := op.write);
      LiveOverwrite(m, k, w, now);
      LiveLater(m, now, now);
      OverwriteLive(Live(m, now), k, w, now);
    }
  }

  lemma WholeAgree<K, V>(s: Cache<K, V>, e: Cache<K, V>, t: int, op: Op<K, V>, now: int)
    requires Agree(s, e, t) && t <= now
    requires op.SetCapacity? || op.Clear? || op.Iter?
    ensures var l, g := Lazy(s, op, now), Eager(e, op, now);
      g.1 == l.1 && if Fair(s, op, now) then Agree(l.0, g.0, now) else |Live(l.0.entries, now)| != |g.0.entries|
  {
    LiveLater(s.entries, t, now);
    match op
    case SetCapacity(c) => ShrinkAgree(s.entries, c, now);
    case Iter => LiveTrimmed(s.entries, now);
    case Clear =>
  }

  /** `entry` drops an expired entry of its key, which the eager cache no longer has. */
  lemma ViewAgree<K, V>(m: seq<Entry<K, V>>, k: K, now: int)
    requires Unique(m)
    ensures var viewed := EntryView(m, k, now);
      && Unique(viewed) && Live(viewed, now) == Live(m, now)
      && Lookup(viewed, k) == Lookup(Live(m, now), k)
      && (Lookup(viewed, k).Some? ==> !Expired(Lookup(viewed, k).value, now))
  {
    LiveLookup(m, k, now);
    LookupRemove(m, k, k);
    RemoveUnique(m, k);
    LiveRemove(m, k, now);
    LookupKeys(Live(m, now), k);
    if Lookup(Live(m, now), k).None? {
      RemoveAbsent(Live(m, now), k);
    }
  }

  lemma EntryInsertAgree<K, V>(s: Cache<K, V>, e: Cache<K, V>, t: int, op: Op<K, V>, now: int)
    requires Unique(s.entries) && Agree(s, e, t) && t <= now && op.EntryInsert?
    ensures Eager(e, op, now).1 == Lazy(s, op, now).1
    ensures Agree(Lazy(s, op, now).0, Eager(e, op, now).0, now)
  {
    var m, k, x := s.entries, op.key, Incoming(op);
    LiveLater(m, t, now);
    ViewAgree(m, k, now);
    var viewed := EntryView(m, k, now);
    LiveOverwrite(viewed, k, x, now);
    LiveConcat(viewed, [x], now);
    LiveConcat(Live(m, now), [x], now);
    LiveLater(m, now, now);
  }

  lemma EntryGetAgree<K, V>(s: Cache<K, V>, e: Cache<K, V>, t: int, op: Op<K, V>, now: int)
    requires Unique(s.entries) && Agree(s, e, t) && t <= now && op.EntryGet?
    ensures Eager(e, op, now).1 == Lazy(s, op, now).1
    ensures Agree(Lazy(s, op, now).0, Eager(e, op, now).0, now)
  {
    var m, k := s.entries, op.key;
    var viewed := EntryView(m, k, now);
    LiveLater(m, t, now);
    LiveLater(m, now, now);
    ViewAgree(m, k, now);
    if Lookup(viewed, k).Some? && op.update.Some? {
      var w := Lookup(viewed, k).value.(value := op.update.value);
      LiveOverwrite(viewed, k, w, now);
      OverwriteLive(Live(m, now), k, w, now);
    }
  }

  /**
   One operation on agreeing caches: the replies are always the same. If the step is fair the caches agree afterwards;
   if not, one of them holds more live entries than the other.
   */
  lemma StepAgree<K, V>(s: Cache<K, V>, e: Cache<K, V>, t: int, op: Op<K, V>, now: int)
    requires Unique(s.entries) && Agree(s, e, t) && t <= now
    ensures var l, g := Lazy(s, op, now), Eager(e, op, now);
      g.1 == l.1 && if Fair(s, op, now) then Agree(l.0, g.0, now) else |Live(l.0.entries, now)| != |g.0.entries|
  {
    if op.Insert? {
      InsertAgree(s, e, t, op, now);
    } else if op.EntryInsert? {
      EntryInsertAgree(s, e, t, op, now);
    } else if op.EntryGet? {
      EntryGetAgree(s, e, t, op, now);
    } else if op.Get? || op.GetMut? || op.ContainsKey? || op.Remove? {
      LookupAgree(s, e, t, op, now);
    } else {
      WholeAgree(s, e, t, op, now);
    }
  }

  // ---------- whole runs ----------

  /** The caches agree after every operation of the run. */
  ghost predicate AlwaysAgree<K, V>(cap: nat, run: seq<Timed<K, V>>) {
    run != [] ==>
      && AlwaysAgree(cap, run[..|run| - 1])
      && Agree(LazyRun(cap, run), EagerRun(cap, run), run[|run| - 1].now)
  }

  /** Every step of the run is fair. */
  ghost predicate AlwaysFair<K, V>(cap: nat, run: seq<Timed<K, V>>) {
    run != [] ==>
      && AlwaysFair(cap, run[..|run| - 1])
      && Fair(LazyRun(cap, run[..|run| - 1]), run[|run| - 1].op, run[|run| - 1].now)
  }

  /** Both caches give the same reply to every operation of the run. */
  ghost predicate SameReplies<K, V>(cap: nat, run: seq<Timed<K, V>>) {
    run != [] ==>
      var init, last := run[..|run| - 1], run[|run| - 1];
      && SameReplies(cap, init)
      && Lazy(LazyRun(cap, init), last.op, last.now).1 == Eager(EagerRun(cap, init), last.op, last.now).1
  }

  lemma LastAgree<K, V>(cap: nat, run: seq<Timed<K, V>>)
    requires Timely(run) && run != [] && AlwaysAgree(cap, run[..|run| - 1])
    ensures var init, last := run[..|run| - 1], run[|run| - 1];
      var l, g := Lazy(LazyRun(cap, init), last.op, last.now), Eager(EagerRun(cap, init), last.op, last.now);
      && g.1 == l.1
      && if Fair(LazyRun(cap, init), last.op, last.now) then Agree(l.0, g.0, last.now)
         else |Live(l.0.entries, last.now)| != |g.0.entries|
  {
    var init, last := run[..|run| - 1], run[|run| - 1];
    RunUnique(cap, init);
    var t := if init == [] then last.now else init[|init| - 1].now;
    StepAgree(LazyRun(cap, init), EagerRun(cap, init), t, last.op, last.now);
  }

  /**
   Over every run with a clock that does not go back the caches agree after each operation if and only if every step is
   fair; and all replies are the same up to and including the first step that is not.
   */
  lemma {:induction false} AgreeIffFair<K, V>(cap: nat, run: seq<Timed<K, V>>)
    requires Timely(run)
    ensures AlwaysAgree(cap, run) <==> AlwaysFair(cap, run)
    ensures run == [] || AlwaysFair(cap, run[..|run| - 1]) ==> SameReplies(cap, run)
  {
    if run != [] {
      var init := run[..|run| - 1];
      AgreeIffFair(cap, init);
      if AlwaysAgree(cap, init) {
        LastAgree(cap, run);
      }
    }
  }

  // ---------- what a caller can notice ----------

  /** The run so far, and then a look at everything that is in the cache. */
  function Probed<K, V>(run: seq<Timed<K, V>>): seq<Timed<K, V>>
    requires run != []
  {
    run + [Timed(Iter, run[|run| - 1].Ended())]
  }

  /** At no point of the run would iterating over the cache give away that it is not the eager one. */
  ghost predicate Unnoticed<K, V>(cap: nat, run: seq<Timed<K, V>>) {
    run != [] ==> Unnoticed(cap, run[..|run| - 1]) && SameReplies(cap, Probed(run))
  }

  lemma ProbedTimely<K, V>(run: seq<Timed<K, V>>)
    requires Timely(run) && run != []
    ensures Timely(Probed(run)) && Probed(run)[..|Probed(run)| - 1] == run
  {
  }

  /** After a fair run the probe sees no difference. */
  lemma FairProbe<K, V>(cap: nat, run: seq<Timed<K, V>>)
    requires Timely(run) && run != [] && AlwaysFair(cap, run)
    ensures SameReplies(cap, Probed(run))
  {
    ProbedTimely(run);
    AgreeIffFair(cap, Probed(run));
  }

  /** What the eager cache keeps when it evicts or shrinks is live. */
  lemma EagerHoldsLive<K, V>(e: Cache<K, V>, op: Op<K, V>, now: int)
    requires op.Insert? || op.SetCapacity?
    ensures Live(Eager(e, op, now).0.entries, now) == Eager(e, op, now).0.entries
  {
    var m := Live(e.entries, now);
    LiveLater(e.entries, now, now);
    match op
    case Insert(_, _, _, _) =>
      var full := Pushed(m, Incoming(op));
      LiveLater(full, now, now);
      if |Live(full, now)| > e.cap {
        LiveSlice(Live(full, now), 1, now);
      }
    case SetCapacity(c) => LiveSlice(m, |m| - |Youngest(m, c)|, now);
  }

  lemma LiveSlice<K, V>(m: seq<Entry<K, V>>, n: nat, now: int)
    requires Live(m, now) == m && n <= |m|
    ensures Live(m[n..], now) == m[n..]
  {
    AllLive(m, now);
    AllLive(m[n..], now);
  }

  /** Right after the first unfair step the probe sees lists of different lengths. */
  lemma UnfairProbe<K, V>(cap: nat, run: seq<Timed<K, V>>)
    requires Timely(run) && run != [] && AlwaysFair(cap, run[..|run| - 1]) && !AlwaysFair(cap, run)
    ensures !SameReplies(cap, Probed(run))
  {
    var init, last := run[..|run| - 1], run[|run| - 1];
    AgreeIffFair(cap, init);
    LastAgree(cap, run);
    ProbedTimely(run);
    EagerHoldsLive(EagerRun(cap, init), last.op, last.now);
    ProbeDiffers(LazyRun(cap, run), EagerRun(cap, run), last.now);
  }

  lemma ProbeDiffers<K, V>(s: Cache<K, V>, e: Cache<K, V>, now: int)
    requires |Live(s.entries, now)| != |e.entries| && Live(e.entries, now) == e.entries
    ensures Lazy(s, Iter, now).1 != Eager(e, Iter, now).1
  {
    LiveTrimmed(s.entries, now);
    assert |PairsOf(Live(Trimmed(s.entries, now), now))| != |PairsOf(e.entries)|;
  }

  /**
   Exactly when lazy expiry cannot be noticed, over every run with a clock that does not go back: at each point the
   replies so far, and those of iterating over the cache then, are the replies of eager deletion, if and only if every
   step is fair.
   */
  lemma {:induction false} LazyIsEagerIffFair<K, V>(cap: nat, run: seq<Timed<K, V>>)
    requires Timely(run)
    ensures Unnoticed(cap, run) <==> AlwaysFair(cap, run)
    ensures AlwaysFair(cap, run) ==> SameReplies(cap, run)
  {
    AgreeIffFair(cap, run);
    if run != [] {
      LazyIsEagerIffFair(cap, run[..|run| - 1]);
      if AlwaysFair(cap, run) {
        FairProbe(cap, run);
      } else if AlwaysFair(cap, run[..|run| - 1]) {
        UnfairProbe(cap, run);
      }
    }
  }

  // ---------- a run in which it is noticed ----------

  /** One more insert at the end of a run whose results are known. */
  lemma InsertSnoc<K, V>(run: seq<Timed<K, V>>, e: Entry<K, V>, ttl: nat,
                         l: seq<Entry<K, V>>, g: seq<Entry<K, V>>, l': seq<Entry<K, V>>, g': seq<Entry<K, V>>)
    requires LazyRun(2, run) == Cache(l, 2) && EagerRun(2, run) == Cache(g, 2)
    requires l' == DropOldestOver(Pushed(l, e), 2)
    requires g' == DropOldestOver(Live(Pushed(Live(g, e.expiration - ttl), e), e.expiration - ttl), 2)
    ensures var longer := run + [InsertAt(e, ttl)];
      LazyRun(2, longer) == Cache(l', 2) && EagerRun(2, longer) == Cache(g', 2)
  {
    LazyInsert(run, e, ttl, l);
    EagerInsert(run, e, ttl, g);
  }

  lemma LazyInsert<K, V>(run: seq<Timed<K, V>>, e: Entry<K, V>, ttl: nat, l: seq<Entry<K, V>>)
    requires LazyRun(2, run) == Cache(l, 2)
    ensures LazyRun(2, run + [InsertAt(e, ttl)]) == Cache(DropOldestOver(Pushed(l, e), 2), 2)
  {
    var t := InsertAt(e, ttl);
    var longer := run + [t];
    assert longer[..|longer| - 1] == run && longer[|longer| - 1] == t;
    assert LazyRun(2, longer) == Lazy(LazyRun(2, run), t.op, t.now).0;
  }

  lemma EagerInsert<K, V>(run: seq<Timed<K, V>>, e: Entry<K, V>, ttl: nat, g: seq<Entry<K, V>>)
    requires EagerRun(2, run) == Cache(g, 2)
    ensures EagerRun(2, run + [InsertAt(e, ttl)]) ==
      var now := e.expiration - ttl; Cache(DropOldestOver(Live(Pushed(Live(g, now), e), now), 2), 2)
  {
    var t := InsertAt(e, ttl);
    var longer := run + [t];
    assert longer[..|longer| - 1] == run && longer[|longer| - 1] == t;
    assert EagerRun(2, longer) == Eager(EagerRun(2, run), t.op, t.now).0;
    assert Incoming(t.op) == e;
  }

  /** The insert that brings `e`, with both its readings at the same instant. */
  function InsertAt<K, V>(e: Entry<K, V>, ttl: nat): Timed<K, V> {
    var now := e.expiration - ttl;
    Timed(Insert(e.key, e.value, now, ttl), now)
  }

  lemma Live2<K, V>(x: Entry<K, V>, y: Entry<K, V>, now: int)
    ensures Live([x], now) == if Expired(x, now) then [] else [x]
    ensures Live([x, y], now) == (if Expired(x, now) then [] else [x]) + (if Expired(y, now) then [] else [y])
  {
    LiveConcat([x], [y], now);
    assert [x] + [y] == [x, y] && [x][1..] == [] == [y][1..];
  }

  /** Pushing onto at most two entries with other keys. */
  lemma Push2<K, V>(x: Entry<K, V>, y: Entry<K, V>, e: Entry<K, V>)
    requires x.key != e.key && y.key != e.key
    ensures Pushed([], e) == [e] && Pushed([x], e) == [x, e] && Pushed([x, y], e) == [x, y, e]
  {
    RemoveAbsent([x], e.key);
    RemoveAbsent([x, y], e.key);
    assert [x, y] + [e] == [x, y, e] && [] + [e] == [e];
  }

  lemma Lookup2<K, V>(x: Entry<K, V>, y: Entry<K, V>, k: K)
    ensures Lookup([x, y], k) == if x.key == k then Some(x) else if y.key == k then Some(y) else None
  {
    assert [x, y][1..] == [y] && [y][1..] == [];
    assert Lookup([y], k) == if y.key == k then Some(y) else Lookup([y][1..], k);
  }

  /**
   Two times to live are enough to tell the caches apart: the short-lived entry, expired but still in the map,
   makes the insert of a third key evict a live one. Up to that insert all replies are the same; a lookup gives it away.
   */
  lemma UnequalTtlsDiffer<K, V>(a: K, b: K, c: K, v: V) returns (run: seq<Timed<K, V>>)
    requires a != b && b != c && a != c
    ensures Timely(run) && |run| == 4 && (forall i :: 0 <= i < |run| ==> run[i].op.Insert? || run[i].op.Get?)
    ensures !SameReplies(2, run)
    ensures SameReplies(2, run[..3]) && !AlwaysFair(2, run[..3])
  {
    var ea, eb, ec := Entry(a, v, 10), Entry(b, v, 1), Entry(c, v, 15);
    var r2 := TwoInserted(ea, eb);
    ThirdInserted(r2, ea, eb, ec);
    var r3 := r2 + [InsertAt(ec, 10)];
    Differ(r3, ea, eb, ec);
    run := r3 + [Timed(Get(a), 5)];
    assert run[..3] == r3 && r3[..2] == r2;
    AgreeIffFair(2, r3);
    AgreeIffFair(2, run);
  }

  lemma TwoInserted<K, V>(ea: Entry<K, V>, eb: Entry<K, V>) returns (run: seq<Timed<K, V>>)
    requires ea.key != eb.key && ea.expiration == 10 && eb.expiration == 1
    ensures run == [InsertAt(ea, 10), InsertAt(eb, 1)] && AlwaysFair(2, run)
    ensures LazyRun(2, run) == Cache([ea, eb], 2) == EagerRun(2, run)
  {
    Push2(eb, eb, ea);
    Push2(ea, ea, eb);
    Live2(ea, eb, 0);
    InsertSnoc([], ea, 10, [], [], [ea], [ea]);
    var r1 := [] + [InsertAt(ea, 10)];
    InsertSnoc(r1, eb, 1, [ea], [ea], [ea, eb], [ea, eb]);
    run := r1 + [InsertAt(eb, 1)];
    FairStart(r1, run, ea, eb);
  }

  lemma ThirdInserted<K, V>(run: seq<Timed<K, V>>, ea: Entry<K, V>, eb: Entry<K, V>, ec: Entry<K, V>)
    requires ea.key != eb.key && eb.key != ec.key && ea.key != ec.key
    requires ea.expiration == 10 && eb.expiration == 1 && ec.expiration == 15
    requires LazyRun(2, run) == Cache([ea, eb], 2) == EagerRun(2, run)
    ensures LazyRun(2, run + [InsertAt(ec, 10)]) == Cache([eb, ec], 2)
    ensures EagerRun(2, run + [InsertAt(ec, 10)]) == Cache([ea, ec], 2)
    ensures !Fair(LazyRun(2, run), InsertAt(ec, 10).op, 5)
  {
    Push2(ea, eb, ec);
    Live2(ea, eb, 5);
    Live2(ea, ec, 5);
    assert [ea, eb, ec][1..] == [eb, ec] && [ea] + [] == [ea] && [ea] + [ec] == [ea, ec];
    InsertSnoc(run, ec, 10, [ea, eb], [ea, eb], [eb, ec], [ea, ec]);
    LiveConcat([ea, eb], [ec], 5);
    assert [ea, eb] + [ec] == [ea, eb, ec] && [ec][1..] == [];
    assert Incoming(InsertAt(ec, 10).op) == ec;
  }

  /** The two inserts that fit are fair. */
  lemma FairStart<K, V>(r1: seq<Timed<K, V>>, r2: seq<Timed<K, V>>, ea: Entry<K, V>, eb: Entry<K, V>)
    requires ea.key != eb.key
    requires r1 == [] + [InsertAt(ea, 10)] && r2 == r1 + [InsertAt(eb, 1)] && LazyRun(2, r1).entries == [ea]
    ensures AlwaysFair(2, r2)
  {
    Push2(ea, ea, eb);
    assert r1[..0] == [] && r2[..1] == r1;
    assert |Pushed([], Incoming(r1[0].op))| == 1;
    assert Incoming(r2[1].op) == eb;
  }

  lemma Differ<K, V>(run: seq<Timed<K, V>>, ea: Entry<K, V>, eb: Entry<K, V>, ec: Entry<K, V>)
    requires LazyRun(2, run).entries == [eb, ec] && EagerRun(2, run).entries == [ea, ec]
    requires ea.key != eb.key && ea.key != ec.key && !Expired(ea, 5) && !Expired(ec, 5)
    ensures !SameReplies(2, run + [Timed(Get(ea.key), 5)])
  {
    Live2(ea, ec, 5);
    Lookup2(eb, ec, ea.key);
    Lookup2(ea, ec, ea.key);
    assert (run + [Timed(Get(ea.key), 5)])[..|run|] == run;
  }
}
