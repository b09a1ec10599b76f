/**
 Whether "the entries are in order of time", as the iterators of the time-to-live cache take for granted:
 exactly which runs keep the map sorted by deadline, and what follows for lazy expiry.
 */
module TtlOrder {
  import opened Wrappers
  import opened TtlMap
  import opened TtlRuns
  import opened TtlEager

  // ---------- one step ----------

  /** A deadline fits between those of the neighbours of place `i`. */
  predicate FitsAt<K, V>(m: seq<Entry<K, V>>, i: nat, deadline: int)
    requires i < |m|
  {
    && (i > 0 ==> m[i - 1].expiration <= deadline)
    && (i + 1 < |m| ==> deadline <= m[i + 1].expiration)
  }

  ghost predicate FitsInPlace<K, V>(m: seq<Entry<K, V>>, k: K, deadline: int) {
    forall i :: 0 <= i < |m| && m[i].key == k ==> FitsAt(m, i, deadline)
  }

  /**
   The step keeps the order of time. A pushed entry must not expire before the youngest of the others, unless that is
   evicted; an entry written in place must fit between its neighbours. No other operation can break the order. Decided
   by the map, the operation and the clock before the operation.
   */
  ghost predicate Orderly<K, V>(s: Cache<K, V>, op: Op<K, V>, now: int) {
    match op
    case Insert(_, _, _, _) =>
      var rest := ShiftRemove(s.entries, op.key);
      rest != [] && (|rest| >= 2 || |rest| + 1 <= s.cap) ==>
        rest[|rest| - 1].expiration <= Incoming(op).expiration
    case EntryInsert(k, _, _, _) =>
      var viewed := EntryView(s.entries, k, now);
      if Lookup(viewed, k).Some?
      then FitsInPlace(viewed, k, Incoming(op).expiration)
      else viewed != [] ==> viewed[|viewed| - 1].expiration <= Incoming(op).expiration
    case _ => true
  }

  lemma {:induction false} RemoveMembers<K, V>(m: seq<Entry<K, V>>, k: K)
    ensures forall x :: x in ShiftRemove(m, k) ==> x in m
  {
    if m != [] {
      RemoveMembers(m[1..], k);
      assert forall x :: x in m[1..] ==> x in m;
    }
  }

  lemma {:induction false} RemoveSorted<K, V>(m: seq<Entry<K, V>>, k: K)
    requires Sorted(m)
    ensures Sorted(ShiftRemove(m, k))
  {
    if m != [] {
      RemoveSorted(m[1..], k);
      RemoveMembers(m[1..], k);
      var rest := ShiftRemove(m[1..], k);
      forall i | 0 <= i < |rest|
        ensures m[0].expiration <= rest[i].expiration
      {
        assert rest[i] in m[1..];
      }
    }
  }

  /** Every entry of the map expires at the given instant or before. */
  ghost predicate ExpireBy<K, V>(m: seq<Entry<K, V>>, deadline: int) {
    forall i :: 0 <= i < |m| ==> m[i].expiration <= deadline
  }

  lemma RemoveExpireBy<K, V>(m: seq<Entry<K, V>>, k: K, d: int)
    requires ExpireBy(m, d)
    ensures ExpireBy(ShiftRemove(m, k), d)
  {
    RemoveMembers(m, k);
    forall i | 0 <= i < |ShiftRemove(m, k)|
      ensures ShiftRemove(m, k)[i].expiration <= d
    {
      assert ShiftRemove(m, k)[i] in m;
    }
  }

  lemma PushedSorted<K, V>(m: seq<Entry<K, V>>, e: Entry<K, V>)
    requires Sorted(m) && ExpireBy(m, e.expiration)
    ensures Sorted(Pushed(m, e)) && ExpireBy(Pushed(m, e), e.expiration)
  {
    RemoveSorted(m, e.key);
    RemoveExpireBy(m, e.key, e.expiration);
  }

  lemma SliceSorted<K, V>(m: seq<Entry<K, V>>, n: nat)
    requires Sorted(m) && n <= |m|
    ensures Sorted(m[n..])
  {
  }

  lemma {:induction false} OverwriteSorted<K, V>(m: seq<Entry<K, V>>, k: K, w: V)
    requires Unique(m) && Lookup(m, k).Some?
    ensures var r := Overwrite(m, k, Lookup(m, k).value.(value := w));
      forall i :: 0 <= i < |m| ==> r[i].expiration == m[i].expiration
  {
    var e := Lookup(m, k).value.(value := w);
    if m[0].key == k {
      assert Keys(m)[0] == k && Keys(m[1..]) == Keys(m)[1..];
      OverwriteAbsent(m[1..], k, e);
    } else {
      SliceUnique(m, 1);
      OverwriteSorted(m[1..], k, w);
    }
  }

  lemma {:induction false} OverwriteAbsent<K, V>(m: seq<Entry<K, V>>, k: K, e: Entry<K, V>)
    requires k !in Keys(m)
    ensures Overwrite(m, k, e) == m
  {
    if m != [] {
      assert Keys(m) == [m[0].key] + Keys(m[1..]);
      OverwriteAbsent(m[1..], k, e);
    }
  }

  /** An insert in place keeps a sorted map sorted exactly if the new deadline fits between its neighbours. */
  lemma OverwriteKeepsOrderIff<K, V>(m: seq<Entry<K, V>>, i: nat, e: Entry<K, V>)
    requires Unique(m) && Sorted(m) && i < |m| && e.key == m[i].key
    ensures Sorted(Overwrite(m, e.key, e)) <==> FitsAt(m, i, e.expiration)
  {
    OverwriteAt(m, i, e);
    ReplacedSorted(m, i, e);
  }

  lemma ReplacedSorted<K, V>(m: seq<Entry<K, V>>, i: nat, e: Entry<K, V>)
    requires Sorted(m) && i < |m|
    ensures Sorted(m[i := e]) <==> FitsAt(m, i, e.expiration)
  {
    var r := m[i := e];
    if Sorted(r) {
      assert i > 0 ==> r[i - 1].expiration <= r[i].expiration;
      assert i + 1 < |m| ==> r[i].expiration <= r[i + 1].expiration;
    }
    if FitsAt(m, i, e.expiration) {
      forall a, b | 0 <= a < b < |r|
        ensures r[a].expiration <= r[b].expiration
      {
        assert b == i ==> m[a].expiration <= m[i - 1].expiration;
        assert a == i ==> m[i + 1].expiration <= m[b].expiration;
      }
    }
  }

  lemma {:induction false} OverwriteAt<K, V>(m: seq<Entry<K, V>>, i: nat, e: Entry<K, V>)
    requires Unique(m) && i < |m| && e.key == m[i].key
    ensures Overwrite(m, e.key, e) == m[i := e]
  {
    assert Keys(m[1..]) == Keys(m)[1..];
    if i == 0 {
      assert Keys(m)[0] !in Keys(m[1..]);
      OverwriteAbsent(m[1..], e.key, e);
    } else {
      assert Keys(m)[0] != Keys(m)[i];
      OverwriteAt(m[1..], i - 1, e);
      assert Overwrite(m, e.key, e) == [m[0]] + m[1..][i - 1 := e];
    }
  }

  /** Appending keeps a sorted map sorted exactly if the last entry does not expire later. */
  lemma AppendSorted<K, V>(m: seq<Entry<K, V>>, e: Entry<K, V>)
    requires Sorted(m)
    ensures Sorted(m + [e]) <==> (m != [] ==> m[|m| - 1].expiration <= e.expiration)
  {
    var r := m + [e];
    if m != [] {
      assert r[|m| - 1] == m[|m| - 1] && r[|m|] == e;
    }
  }

  /** What is left of a pushed map after evicting is the pushed entry behind a part of the old map. */
  lemma PushedSortedIff<K, V>(m: seq<Entry<K, V>>, e: Entry<K, V>, cap: nat)
    requires Sorted(m)
    ensures var rest := ShiftRemove(m, e.key);
      Sorted(DropOldestOver(Pushed(m, e), cap)) <==>
        (rest != [] && (|rest| >= 2 || |rest| + 1 <= cap) ==> rest[|rest| - 1].expiration <= e.expiration)
  {
    RemoveSorted(m, e.key);
    AppendCutSorted(ShiftRemove(m, e.key), e, cap);
  }

  lemma AppendCutSorted<K, V>(rest: seq<Entry<K, V>>, e: Entry<K, V>, cap: nat)
    requires Sorted(rest)
    ensures Sorted(DropOldestOver(rest + [e], cap)) <==>
      (rest != [] && (|rest| >= 2 || |rest| + 1 <= cap) ==> rest[|rest| - 1].expiration <= e.expiration)
  {
    if |rest| + 1 <= cap {
      AppendSorted(rest, e);
    } else if rest != [] {
      SliceSorted(rest, 1);
      AppendSorted(rest[1..], e);
      assert (rest + [e])[1..] == rest[1..] + [e];
    }
  }

  lemma OverwriteSortedIff<K, V>(m: seq<Entry<K, V>>, k: K, e: Entry<K, V>)
    requires Sorted(m) && Unique(m) && e.key == k && Lookup(m, k).Some?
    ensures Sorted(Overwrite(m, k, e)) <==> FitsInPlace(m, k, e.expiration)
  {
    LookupKeys(m, k);
    var i :| 0 <= i < |m| && Keys(m)[i] == k;
    OverwriteKeepsOrderIff(m, i, e);
    assert m[i].key == k;
    forall j | 0 <= j < |m| && m[j].key == k
      ensures j == i
    {
      assert Keys(m)[j] == Keys(m)[i];
    }
  }

  lemma ViewSorted<K, V>(m: seq<Entry<K, V>>, k: K, now: int)
    requires Sorted(m) && Unique(m)
    ensures Sorted(EntryView(m, k, now)) && Unique(EntryView(m, k, now))
  {
    RemoveSorted(m, k);
    RemoveUnique(m, k);
  }

  lemma RewrittenSorted<K, V>(m: seq<Entry<K, V>>, k: K, w: Option<V>)
    requires Sorted(m) && Unique(m)
    ensures Sorted(Rewritten(m, k, w))
    ensures forall d :: ExpireBy(m, d) ==> ExpireBy(Rewritten(m, k, w), d)
  {
    if Lookup(m, k).Some? && w.Some? {
      OverwriteSorted(m, k, w.value);
    }
  }

  lemma EntryInsertSortedIff<K, V>(s: Cache<K, V>, op: Op<K, V>, now: int)
    requires Sorted(s.entries) && Unique(s.entries) && op.EntryInsert?
    ensures Sorted(Lazy(s, op, now).0.entries) <==> Orderly(s, op, now)
  {
    var viewed, e := EntryView(s.entries, op.key, now), Incoming(op);
    ViewSorted(s.entries, op.key, now);
    if Lookup(viewed, op.key).Some? {
      OverwriteSortedIff(viewed, op.key, e);
    } else {
      AppendSorted(viewed, e);
    }
  }

  /** A sorted map is sorted after the operation if and only if the operation is orderly. */
  lemma StepSortedIff<K, V>(s: Cache<K, V>, op: Op<K, V>, now: int)
    requires Sorted(s.entries) && Unique(s.entries)
    ensures Sorted(Lazy(s, op, now).0.entries) <==> Orderly(s, op, now)
  {
    var m := s.entries;
    match op
    case Insert(_, _, _, _) => PushedSortedIff(m, Incoming(op), s.cap);
    case EntryInsert(_, _, _, _) => EntryInsertSortedIff(s, op, now);
    case GetMut(k, w) =>
      if Lookup(m, k).Some? {
        OverwriteSorted(m, k, w);
      }
    case Remove(k) => RemoveSorted(m, k);
    case EntryGet(k, w) =>
      ViewSorted(m, k, now);
      RewrittenSorted(EntryView(m, k, now), k, w);
    case Iter =>
      var n := TrimmedIsSuffix(m, now);
      SliceSorted(m, n);
    case SetCapacity(c) => SliceSorted(m, |m| - |Youngest(m, c)|);
    case Get(_) =>
    case ContainsKey(_) =>
    case Clear =>
  }

  // ---------- whole runs ----------

  /** The map is sorted by deadline after every operation of the run. */
  ghost predicate AlwaysSorted<K, V>(cap: nat, run: seq<Timed<K, V>>) {
    run != [] ==> AlwaysSorted(cap, run[..|run| - 1]) && Sorted(LazyRun(cap, run).entries)
  }

  /** Every step of the run is orderly. */
  ghost predicate AlwaysOrderly<K, V>(cap: nat, run: seq<Timed<K, V>>) {
    run != [] ==>
      && AlwaysOrderly(cap, run[..|run| - 1])
      && Orderly(LazyRun(cap, run[..|run| - 1]), run[|run| - 1].op, run[|run| - 1].now)
  }

  /** The exact condition for the entries to be in order of time at every point of a run, whatever its operations. */
  lemma {:induction false} SortedIffOrderly<K, V>(cap: nat, run: seq<Timed<K, V>>)
    ensures AlwaysSorted(cap, run) <==> AlwaysOrderly(cap, run)
  {
    if run != [] {
      var init, last := run[..|run| - 1], run[|run| - 1];
      SortedIffOrderly(cap, init);
      RunUnique(cap, init);
      if AlwaysSorted(cap, init) {
        assert Sorted(LazyRun(cap, init).entries);
        StepSortedIff(LazyRun(cap, init), last.op, last.now);
      }
    }
  }

  // ---------- orderly runs expire eagerly ----------

  /** In a sorted map, once an entry is live all younger ones are. */
  lemma SortedSplit<K, V>(m: seq<Entry<K, V>>, n: nat, now: int)
    requires Sorted(m) && n <= |m|
    ensures Live(m[..n], now) == [] || Live(m[n..], now) == m[n..]
  {
    if Live(m[..n], now) != [] {
      LiveMember(m[..n], now);
      var i :| 0 <= i < n && !Expired(m[i], now);
      assert forall j :: 0 <= j < |m[n..]| ==> m[n..][j] == m[n + j];
      AllLive(m[n..], now);
    }
  }

  lemma {:induction false} LiveMember<K, V>(m: seq<Entry<K, V>>, now: int)
    ensures Live(m, now) != [] ==> exists i :: 0 <= i < |m| && !Expired(m[i], now)
  {
    if m != [] && Expired(m[0], now) {
      LiveMember(m[1..], now);
      if Live(m, now) != [] {
        var i :| 0 <= i < |m[1..]| && !Expired(m[1..][i], now);
        assert m[i + 1] == m[1..][i];
      }
    }
  }

  /** An overflow in order of time evicts an expired entry exactly if there is one. */
  lemma SortedEviction<K, V>(full: seq<Entry<K, V>>, cap: nat, now: int)
    requires Sorted(full) && |full| <= cap + 1
    ensures FairEviction(full, cap, now)
  {
    if |full| > cap && !Expired(full[0], now) {
      AllLive(full, now);
    }
  }

  /** The order need not hold between the evicted entry and a new one that arrives in time. */
  lemma OrderlyEviction<K, V>(s: Cache<K, V>, op: Op<K, V>, now: int)
    requires Sorted(s.entries) && |s.entries| <= s.cap && Unique(s.entries)
    requires op.Insert? && Orderly(s, op, now) && !Expired(Incoming(op), now)
    ensures FairEviction(Pushed(s.entries, Incoming(op)), s.cap, now)
  {
    var e := Incoming(op);
    var rest, full := ShiftRemove(s.entries, e.key), Pushed(s.entries, e);
    PushedUnique(s.entries, e);
    RemoveSorted(s.entries, e.key);
    AppendSorted(rest, e);
    if |full| >= 3 {
      assert full[1..][|full| - 3] == full[|full| - 2];
      SortedEviction(full, s.cap, now);
    } else if |full| == 2 {
      LiveConcat([full[0]], [e], now);
      assert full == [full[0]] + [e] && [e][1..] == [] == [full[0]][1..];
    }
  }

  /** In a sorted map every step but an insert is fair. */
  lemma SortedFair<K, V>(s: Cache<K, V>, op: Op<K, V>, now: int)
    requires Sorted(s.entries) && !op.Insert?
    ensures Fair(s, op, now)
  {
    if op.SetCapacity? && |s.entries| > op.cap {
      SortedSplit(s.entries, |s.entries| - op.cap, now);
    }
  }

  /** No entry has passed its deadline by the time it is in the map. */
  ghost predicate Prompt<K, V>(run: seq<Timed<K, V>>) {
    forall i :: 0 <= i < |run| && run[i].op.Insert? ==> !Expired(Incoming(run[i].op), run[i].now)
  }

  lemma {:induction false} OrderlyIsFair<K, V>(cap: nat, run: seq<Timed<K, V>>)
    requires AlwaysOrderly(cap, run) && AlwaysFits(cap, run) && Prompt(run)
    ensures AlwaysFair(cap, run)
  {
    if run != [] {
      var init, last := run[..|run| - 1], run[|run| - 1];
      OrderlyIsFair(cap, init);
      SortedIffOrderly(cap, init);
      RunUnique(cap, init);
      var s := LazyRun(cap, init);
      assert Sorted(s.entries) && |s.entries| <= s.cap;
      if last.op.Insert? {
        OrderlyEviction(s, last.op, last.now);
      } else {
        SortedFair(s, last.op, last.now);
      }
    }
  }

  /**
   A run that keeps the map in order of time, and in which vacant inserts find room, cannot be told from one with eager
   deletion, be it through `insert` or through the entry API.
   */
  lemma OrderlyIsEager<K, V>(cap: nat, run: seq<Timed<K, V>>)
    requires Timely(run) && AlwaysOrderly(cap, run) && AlwaysRoom(cap, run) && Prompt(run)
    ensures Unnoticed(cap, run) && SameReplies(cap, run) && AlwaysAgree(cap, run)
  {
    FitsIffRoom(cap, run);
    OrderlyIsFair(cap, run);
    AgreeIffFair(cap, run);
    LazyIsEagerIffFair(cap, run);
  }

  // ---------- inserts that expire in the order they are made ----------

  /** The deadline of the last insert of the run. */
  function LastDeadline<K, V>(run: seq<Timed<K, V>>): Option<int> {
    if run == [] then None
    else
      var last := run[|run| - 1];
      if last.op.Insert? || last.op.EntryInsert? then Some(Incoming(last.op).expiration)
      else LastDeadline(run[..|run| - 1])
  }

  /** Inserts of either kind expire in the order they are made, and none overwrites an entry in place. */
  ghost predicate InOrder<K, V>(cap: nat, run: seq<Timed<K, V>>) {
    run != [] ==>
      var init, last := run[..|run| - 1], run[|run| - 1];
      && InOrder(cap, init)
      && (last.op.Insert? || last.op.EntryInsert? ==>
            LastDeadline(init).Some? ==> LastDeadline(init).value <= Incoming(last.op).expiration)
      && (last.op.EntryInsert? ==> Fresh(Lookup(LazyRun(cap, init).entries, last.op.key), last.now).None?)
  }

  lemma InOrderVacant<K, V>(m: seq<Entry<K, V>>, e: Entry<K, V>, now: int)
    requires Sorted(m) && ExpireBy(m, e.expiration) && Fresh(Lookup(m, e.key), now).None?
    ensures var viewed := EntryView(m, e.key, now);
      Lookup(viewed, e.key).None? && Sorted(viewed + [e]) && ExpireBy(viewed + [e], e.expiration)
  {
    LookupRemove(m, e.key, e.key);
    RemoveSorted(m, e.key);
    RemoveExpireBy(m, e.key, e.expiration);
  }

  lemma InOrderPush<K, V>(s: Cache<K, V>, op: Op<K, V>, now: int)
    requires Sorted(s.entries) && (op.Insert? || op.EntryInsert?) && ExpireBy(s.entries, Incoming(op).expiration)
    requires op.EntryInsert? ==> Fresh(Lookup(s.entries, op.key), now).None?
    ensures var r := Lazy(s, op, now).0.entries; Sorted(r) && ExpireBy(r, Incoming(op).expiration)
  {
    if op.Insert? {
      PushedSorted(s.entries, Incoming(op));
    } else {
      InOrderVacant(s.entries, Incoming(op), now);
    }
  }

  /** The other operations leave a sorted map sorted and bring no later deadline. */
  lemma InOrderOther<K, V>(s: Cache<K, V>, op: Op<K, V>, now: int, d: int)
    requires Sorted(s.entries) && Unique(s.entries) && ExpireBy(s.entries, d)
    requires !op.Insert? && !op.EntryInsert?
    ensures Sorted(Lazy(s, op, now).0.entries) && ExpireBy(Lazy(s, op, now).0.entries, d)
  {
    var m := s.entries;
    StepSortedIff(s, op, now);
    match op
    case GetMut(k, w) =>
      if Lookup(m, k).Some? {
        OverwriteSorted(m, k, w);
      }
    case Remove(k) => RemoveExpireBy(m, k, d);
    case EntryGet(k, w) =>
      ViewSorted(m, k, now);
      RemoveExpireBy(m, k, d);
      RewrittenSorted(EntryView(m, k, now), k, w);
    case Iter =>
      var n := TrimmedIsSuffix(m, now);
    case _ =>
  }

  lemma {:induction false} EmptyBefore<K, V>(cap: nat, run: seq<Timed<K, V>>)
    requires LastDeadline(run).None?
    ensures LazyRun(cap, run).entries == []
  {
    if run != [] {
      EmptyBefore(cap, run[..|run| - 1]);
    }
  }

  /** In such a run the map is sorted by deadline at every point. */
  lemma {:induction false} InOrderSorted<K, V>(cap: nat, run: seq<Timed<K, V>>)
    requires InOrder(cap, run)
    ensures AlwaysSorted(cap, run) && Sorted(LazyRun(cap, run).entries)
    ensures LastDeadline(run).Some? ==> ExpireBy(LazyRun(cap, run).entries, LastDeadline(run).value)
  {
    if run != [] {
      var init, last := run[..|run| - 1], run[|run| - 1];
      InOrderSorted(cap, init);
      RunUnique(cap, init);
      if LastDeadline(init).None? {
        EmptyBefore(cap, init);
      }
      var d := if LastDeadline(init).Some? then LastDeadline(init).value
               else if last.op.Insert? || last.op.EntryInsert? then Incoming(last.op).expiration else 0;
      if last.op.Insert? || last.op.EntryInsert? {
        InOrderPush(LazyRun(cap, init), last.op, last.now);
      } else {
        InOrderOther(LazyRun(cap, init), last.op, last.now, d);
      }
      if LastDeadline(run).None? {
        EmptyBefore(cap, run);
      }
    }
  }

  lemma {:induction false} InOrderIsFair<K, V>(cap: nat, run: seq<Timed<K, V>>)
    requires InOrder(cap, run) && AlwaysFits(cap, run)
    ensures AlwaysFair(cap, run)
  {
    if run != [] {
      var init, last := run[..|run| - 1], run[|run| - 1];
      InOrderIsFair(cap, init);
      InOrderSorted(cap, init);
      RunUnique(cap, init);
      var s := LazyRun(cap, init);
      if last.op.Insert? {
        if LastDeadline(init).None? {
          EmptyBefore(cap, init);
        }
        PushedSorted(s.entries, Incoming(last.op));
        PushedUnique(s.entries, Incoming(last.op));
        SortedEviction(Pushed(s.entries, Incoming(last.op)), s.cap, last.now);
      } else {
        SortedFair(s, last.op, last.now);
      }
    }
  }

  /** If inserts expire in the order made and vacant ones find room, all replies are those of eager deletion. */
  lemma InOrderIsEager<K, V>(cap: nat, run: seq<Timed<K, V>>)
    requires Timely(run) && InOrder(cap, run) && AlwaysRoom(cap, run)
    ensures Unnoticed(cap, run) && SameReplies(cap, run) && AlwaysAgree(cap, run)
  {
    FitsIffRoom(cap, run);
    InOrderIsFair(cap, run);
    AgreeIffFair(cap, run);
    LazyIsEagerIffFair(cap, run);
  }

  // ---------- one time to live ----------

  /** All inserts of either kind have the same time to live. */
  ghost predicate OneTtl<K, V>(run: seq<Timed<K, V>>, ttl: nat) {
    forall i :: 0 <= i < |run| && (run[i].op.Insert? || run[i].op.EntryInsert?) ==> run[i].op.ttl == ttl
  }

  /** No insert through the entry API overwrites an entry. */
  ghost predicate NoOverwrite<K, V>(cap: nat, run: seq<Timed<K, V>>) {
    run != [] ==>
      var init, last := run[..|run| - 1], run[|run| - 1];
      && NoOverwrite(cap, init)
      && (last.op.EntryInsert? ==> Fresh(Lookup(LazyRun(cap, init).entries, last.op.key), last.now).None?)
  }

  lemma {:induction false} OneTtlInOrder<K, V>(cap: nat, run: seq<Timed<K, V>>, ttl: nat)
    requires Timely(run) && OneTtl(run, ttl) && NoOverwrite(cap, run)
    ensures InOrder(cap, run)
    ensures LastDeadline(run).Some? ==> run != [] && LastDeadline(run).value <= run[|run| - 1].Ended() + ttl
  {
    if run != [] {
      var init, last := run[..|run| - 1], run[|run| - 1];
      OneTtlInOrder(cap, init, ttl);
      if init != [] {
        assert init[|init| - 1] == run[|init| - 1];
        assert run[|init| - 1].Ended() <= run[|init|].Started() <= last.Ended();
      }
    }
  }

  /**
   The case the source has in mind: one time to live for all inserts, and none that overwrites in place. The map is
   always sorted, and as long as vacant inserts find room all replies are those of eager deletion.
   */
  lemma OneTtlWithEntries<K, V>(cap: nat, run: seq<Timed<K, V>>, ttl: nat)
    requires Timely(run) && OneTtl(run, ttl) && NoOverwrite(cap, run)
    ensures AlwaysSorted(cap, run)
    ensures AlwaysRoom(cap, run) ==> Unnoticed(cap, run) && SameReplies(cap, run)
  {
    OneTtlInOrder(cap, run, ttl);
    InOrderSorted(cap, run);
    if AlwaysRoom(cap, run) {
      InOrderIsEager(cap, run);
    }
  }

  ghost predicate NoEntryInsert<K, V>(run: seq<Timed<K, V>>) {
    forall i :: 0 <= i < |run| ==> !run[i].op.EntryInsert?
  }

  /** Such a run meets all conditions on inserts through the entry API. */
  lemma {:induction false} PlainRun<K, V>(cap: nat, run: seq<Timed<K, V>>)
    requires NoEntryInsert(run)
    ensures NoOverwrite(cap, run) && AlwaysRoom(cap, run)
  {
    if run != [] {
      PlainRun(cap, run[..|run| - 1]);
    }
  }

  /**
   One time to live and no insert through the entry API, whatever else is done: the map is always sorted, and nobody
   can tell the cache from one that deletes entries the moment they expire.
   */
  lemma OneTtlIsEager<K, V>(cap: nat, run: seq<Timed<K, V>>, ttl: nat)
    requires Timely(run) && OneTtl(run, ttl) && NoEntryInsert(run)
    ensures AlwaysSorted(cap, run) && Unnoticed(cap, run) && SameReplies(cap, run)
  {
    PlainRun(cap, run);
    OneTtlWithEntries(cap, run, ttl);
  }
}
