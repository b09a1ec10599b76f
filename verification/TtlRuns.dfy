/**
 Runs of the time-to-live cache. `Lazy` is what the source does: expired entries stay in the map
 until something pushes them out, and lookups skip them.
 */
module TtlRuns {
  import opened Wrappers
  import opened Recency
  import opened Subsequences
  import opened TtlMap

  datatype Cache<K, V> = Cache(entries: seq<Entry<K, V>>, cap: nat)

  /**
   Every operation is made at a clock reading of its own, at which it tests for expiry. Inserts read the clock once
   more, to compute the deadline: `Insert` before that, at `start`, and `EntryInsert` after it, at `written`. `GetMut`
   is a caller that writes through the reference it gets. `EntryInsert` is `entry` followed by `insert` on the variant
   it returns. `EntryGet` is `entry` followed by no insert: the caller reads the value of an occupied entry, and may
   write through its `get_mut`.
   */
  datatype Op<K, V> =
    | Insert(key: K, value: V, start: int, ttl: nat)
    | Get(key: K)
    | GetMut(key: K, write: V)
    | ContainsKey(key: K)
    | Remove(key: K)
    | SetCapacity(cap: nat)
    | Clear
    | Iter
    | EntryInsert(key: K, value: V, written: int, ttl: nat)
    | EntryGet(key: K, update: Option<V>)

  datatype Reply<K, V> = Value(value: Option<V>) | Flag(flag: bool) | Items(items: seq<(K, V)>) | Done

  function PairsOf<K, V>(m: seq<Entry<K, V>>): (r: seq<(K, V)>)
    ensures |r| == |m|
    ensures forall i :: 0 <= i < |m| ==> r[i] == (m[i].key, m[i].value)
  {
    seq(|m|, i requires 0 <= i < |m| => (m[i].key, m[i].value))
  }

  function DropOldestOver<K, V>(m: seq<Entry<K, V>>, cap: nat): seq<Entry<K, V>> {
    if |m| > cap then m[1..] else m
  }

  /** The map right after the new entry went in and before anything is evicted. */
  function Pushed<K(==), V>(m: seq<Entry<K, V>>, e: Entry<K, V>): seq<Entry<K, V>> {
    ShiftRemove(m, e.key) + [e]
  }

  /** The map as `entry(k)` leaves it. */
  function EntryView<K(==), V>(m: seq<Entry<K, V>>, k: K, now: int): seq<Entry<K, V>> {
    if Lookup(m, k).Some? && Expired(Lookup(m, k).value, now) then ShiftRemove(m, k) else m
  }

  /** The map after a write to the value of `k`, if there is one to be written and an entry to write to. */
  function Rewritten<K(==), V>(m: seq<Entry<K, V>>, k: K, w: Option<V>): seq<Entry<K, V>> {
    if Lookup(m, k).Some? && w.Some? then Overwrite(m, k, Lookup(m, k).value.(value := w.value)) else m
  }

  function ValueOf<K, V>(e: Option<Entry<K, V>>): Option<V> {
    if e.Some? then Some(e.value.value) else None
  }

  function Lazy<K(==), V>(s: Cache<K, V>, op: Op<K, V>, now: int): (Cache<K, V>, Reply<K, V>) {
    var m := s.entries;
    match op
    case Insert(k, v, start, ttl) =>
      (s.(entries := DropOldestOver(Pushed(m, Entry(k, v, start + ttl)), s.cap)), Value(Fresh(Lookup(m, k), now)))
    case Get(k) => (s, Value(Fresh(Lookup(m, k), now)))
    case GetMut(k, w) =>
      var found := Fresh(Lookup(m, k), now);
      (if found.Some? then s.(entries := Overwrite(m, k, Lookup(m, k).value.(value := w))) else s, Value(found))
    case ContainsKey(k) => (s, Flag(Fresh(Lookup(m, k), now).Some?))
    case Remove(k) => (s.(entries := ShiftRemove(m, k)), Value(Fresh(Lookup(m, k), now)))
    case SetCapacity(c) => (Cache(Youngest(m, c), c), Done)
    case Clear => (s.(entries := []), Done)
    case Iter => (s.(entries := Trimmed(m, now)), Items(PairsOf(Live(Trimmed(m, now), now))))
    case EntryGet(k, w) =>
      var viewed := EntryView(m, k, now);
      (s.(entries := Rewritten(viewed, k, w)), Value(ValueOf(Lookup(viewed, k))))
    case EntryInsert(k, v, written, ttl) =>
      var viewed, e := EntryView(m, k, now), Entry(k, v, written + ttl);
      match Lookup(viewed, k)
      case Some(prev) => (s.(entries := Overwrite(viewed, k, e)), Value(Some(prev.value)))
      case None => (s.(entries := viewed + [e]), Value(None))
  }

  /** An operation with the clock reading it is made at. */
  datatype Timed<K, V> = Timed(op: Op<K, V>, now: int) {

    /** The first reading of the operation. */
    function Started(): int {
      if op.Insert? then op.start else now
    }

    /** The last reading of the operation. */
    function Ended(): int {
      if op.EntryInsert? then op.written else now
    }
  }

  /** The entry an insert brings. */
  function Incoming<K, V>(op: Op<K, V>): Entry<K, V>
    requires op.Insert? || op.EntryInsert?
  {
    Entry(op.key, op.value, (if op.Insert? then op.start else op.written) + op.ttl)
  }

  function LazyRun<K(==), V>(cap: nat, run: seq<Timed<K, V>>): Cache<K, V> {
    if run == [] then Cache([], cap)
    else
      var last := run[|run| - 1];
      Lazy(LazyRun(cap, run[..|run| - 1]), last.op, last.now).0
  }

  /** The clock never goes back, neither within an operation nor from one to the next. */
  ghost predicate Timely<K, V>(run: seq<Timed<K, V>>) {
    && (forall i :: 0 <= i < |run| ==> run[i].Started() <= run[i].now <= run[i].Ended())
    && (forall i, j :: 0 <= i < j < |run| ==> run[i].Ended() <= run[j].Started())
  }

  // ---------- distinct keys ----------

  lemma LazyUnique<K, V>(s: Cache<K, V>, op: Op<K, V>, now: int)
    requires Unique(s.entries)
    ensures Unique(Lazy(s, op, now).0.entries)
  {
    var m := s.entries;
    match op
    case Insert(k, v, start, ttl) =>
      PushedUnique(m, Entry(k, v, start + ttl));
      SliceUnique(Pushed(m, Entry(k, v, start + ttl)), 1);
    case GetMut(k, w) =>
      LookupKeys(m, k);
      if Lookup(m, k).Some? {
        KeysOverwrite(m, k, Lookup(m, k).value.(value := w));
      }
    case Remove(k) => RemoveUnique(m, k);
    case SetCapacity(c) => SliceUnique(m, |m| - |Youngest(m, c)|);
    case Iter =>
      var n := TrimmedIsSuffix(m, now);
      SliceUnique(m, n);
    case EntryInsert(k, v, written, ttl) =>
      EntryInsertUnique(m, k, Entry(k, v, written + ttl), now);
    case EntryGet(k, w) =>
      RemoveUnique(m, k);
      RewrittenKeys(EntryView(m, k, now), k, w);
    case Get(k) =>
    case ContainsKey(k) =>
    case Clear =>
  }

  lemma EntryInsertUnique<K, V>(m: seq<Entry<K, V>>, k: K, e: Entry<K, V>, now: int)
    requires Unique(m) && e.key == k
    ensures var viewed := EntryView(m, k, now);
      Unique(Overwrite(viewed, k, e)) && (Lookup(viewed, k).None? ==> Unique(viewed + [e]))
  {
    var viewed := EntryView(m, k, now);
    RemoveUnique(m, k);
    KeysOverwrite(viewed, k, e);
    LookupKeys(viewed, k);
    if Lookup(viewed, k).None? {
      AppendUnique(viewed, e);
    }
  }

  lemma RewrittenKeys<K, V>(m: seq<Entry<K, V>>, k: K, w: Option<V>)
    ensures Keys(Rewritten(m, k, w)) == Keys(m) && |Rewritten(m, k, w)| == |m|
  {
    LookupKeys(m, k);
    if Lookup(m, k).Some? && w.Some? {
      KeysOverwrite(m, k, Lookup(m, k).value.(value := w.value));
    }
  }

  lemma PushedUnique<K, V>(m: seq<Entry<K, V>>, e: Entry<K, V>)
    requires Unique(m)
    ensures Unique(Pushed(m, e)) && |Pushed(m, e)| == if e.key in Keys(m) then |m| else |m| + 1
  {
    RemoveUnique(m, e.key);
    AppendUnique(ShiftRemove(m, e.key), e);
  }

  lemma {:induction false} RunUnique<K, V>(cap: nat, run: seq<Timed<K, V>>)
    ensures Unique(LazyRun(cap, run).entries)
  {
    if run != [] {
      RunUnique(cap, run[..|run| - 1]);
      LazyUnique(LazyRun(cap, run[..|run| - 1]), run[|run| - 1].op, run[|run| - 1].now);
    }
  }

  // ---------- what later lookups see ----------

  lemma {:induction false} LookupOverwrite<K, V>(m: seq<Entry<K, V>>, k: K, e: Entry<K, V>, x: K)
    requires e.key == k
    ensures Lookup(Overwrite(m, k, e), x) == if x == k && Lookup(m, k).Some? then Some(e) else Lookup(m, x)
  {
    if m != [] {
      LookupOverwrite(m[1..], k, e, x);
      assert Overwrite(m, k, e)[1..] == Overwrite(m[1..], k, e);
    }
  }

  /** Writing through `get_mut`, `remove` and the entry API change the entry of their own key and no other. */
  lemma LookupAfter<K, V>(s: Cache<K, V>, op: Op<K, V>, now: int, x: K)
    requires op.GetMut? || op.Remove? || op.EntryInsert? || op.EntryGet?
    ensures var before, r := Lookup(s.entries, op.key), Lookup(Lazy(s, op, now).0.entries, x);
      r == if x != op.key then Lookup(s.entries, x)
           else match op
             case GetMut(_, w) => if Fresh(before, now).Some? then Some(before.value.(value := w)) else before
             case Remove(_) => None
             case EntryInsert(k, v, written, ttl) => Some(Entry(k, v, written + ttl))
             case EntryGet(_, w) =>
               if Fresh(before, now).None? then None
               else if w.Some? then Some(before.value.(value := w.value)) else before
  {
    var m, k := s.entries, op.key;
    LookupKeys(m, k);
    LookupRemove(m, k, x);
    LookupRemove(m, k, k);
    match op
    case GetMut(_, w) =>
      if Lookup(m, k).Some? {
        LookupOverwrite(m, k, Lookup(m, k).value.(value := w), x);
      }
    case Remove(_) =>
    case EntryInsert(_, v, written, ttl) =>
      LookupOverwrite(EntryView(m, k, now), k, Entry(k, v, written + ttl), x);
      LookupAppend(EntryView(m, k, now), Entry(k, v, written + ttl), x);
    case EntryGet(_, w) => LookupRewritten(EntryView(m, k, now), k, w, x);
  }

  lemma LookupRewritten<K, V>(m: seq<Entry<K, V>>, k: K, w: Option<V>, x: K)
    ensures Lookup(Rewritten(m, k, w), x) ==
      if x == k && Lookup(m, k).Some? && w.Some? then Some(Lookup(m, k).value.(value := w.value)) else Lookup(m, x)
  {
    LookupKeys(m, k);
    if Lookup(m, k).Some? && w.Some? {
      LookupOverwrite(m, k, Lookup(m, k).value.(value := w.value), x);
    }
  }

  /**
   The order of the keys, from old to young: an insert makes its key the youngest, an insert through an
   occupied entry leaves it where it is, and writing through `get_mut` moves nothing.
   */
  lemma OrderAfter<K, V>(s: Cache<K, V>, op: Op<K, V>, now: int)
    requires op.GetMut? || op.Remove? || op.EntryInsert? || op.EntryGet? || op.Insert?
    ensures var ks, r := TtlMap.Keys(s.entries), TtlMap.Keys(Lazy(s, op, now).0.entries);
      match op
      case GetMut(_, _) => r == ks
      case Remove(k) => r == Without(ks, k)
      case EntryInsert(k, _, _, _) =>
        r == if Fresh(Lookup(s.entries, k), now).Some? then ks else Without(ks, k) + [k]
      case EntryGet(k, _) =>
        r == if Lookup(s.entries, k).Some? && Fresh(Lookup(s.entries, k), now).None? then Without(ks, k) else ks
      case Insert(k, _, _, _) =>
        var all := Without(ks, k) + [k];
        r == if |all| > s.cap then all[1..] else all
      case _ => true
  {
    var m := s.entries;
    match op
    case GetMut(k, w) => GetMutOrder(m, k, w);
    case Remove(k) => KeysRemove(m, k);
    case EntryInsert(k, v, written, ttl) => EntryInsertOrder(m, Entry(k, v, written + ttl), now);
    case EntryGet(k, w) => EntryGetOrder(m, k, w, now);
    case Insert(k, v, start, ttl) => InsertOrder(m, Entry(k, v, start + ttl), s.cap);
    case _ =>
  }

  /** Lookups move nothing; cutting and trimming take keys away at the old end, trimming only what has expired. */
  lemma OrderAfterOthers<K, V>(s: Cache<K, V>, op: Op<K, V>, now: int)
    requires op.Get? || op.ContainsKey? || op.SetCapacity? || op.Clear? || op.Iter?
    ensures var ks, r := TtlMap.Keys(s.entries), TtlMap.Keys(Lazy(s, op, now).0.entries);
      match op
      case SetCapacity(c) => r == if |ks| > c then ks[|ks| - c..] else ks
      case Clear => r == []
      case Iter =>
        var n := |ks| - |r|;
        && 0 <= n && r == ks[n..]
        && (forall i :: 0 <= i < n ==> now > s.entries[i].expiration)
        && (n < |ks| ==> now <= s.entries[n].expiration)
      case _ => r == ks
  {
    match op
    case SetCapacity(c) => CutOrder(s.entries, c);
    case Iter => TrimOrder(s.entries, now);
    case _ =>
  }

  lemma CapacityStep<K, V>(s: Cache<K, V>, op: Op<K, V>, now: int)
    ensures Lazy(s, op, now).0.cap == if op.SetCapacity? then op.cap else s.cap
  {
  }

  lemma EntryGetOrder<K, V>(m: seq<Entry<K, V>>, k: K, w: Option<V>, now: int)
    ensures Keys(Rewritten(EntryView(m, k, now), k, w)) ==
      if Lookup(m, k).Some? && Fresh(Lookup(m, k), now).None? then Without(Keys(m), k) else Keys(m)
  {
    KeysRemove(m, k);
    RewrittenKeys(EntryView(m, k, now), k, w);
  }

  lemma CutOrder<K, V>(m: seq<Entry<K, V>>, c: nat)
    ensures Keys(Youngest(m, c)) == if |Keys(m)| > c then Keys(m)[|Keys(m)| - c..] else Keys(m)
  {
  }

  lemma TrimOrder<K, V>(m: seq<Entry<K, V>>, now: int)
    ensures var ks, r := Keys(m), Keys(Trimmed(m, now));
      var n := |ks| - |r|;
      && 0 <= n && r == ks[n..]
      && (forall i :: 0 <= i < n ==> now > m[i].expiration)
      && (n < |ks| ==> now <= m[n].expiration)
  {
    var n := TrimmedIsSuffix(m, now);
    assert Keys(m[n..]) == Keys(m)[n..];
  }

  /**
   What each operation leaves under a key that it leaves there at all. With the order of the keys this is the whole
   cache after the operation.
   */
  lemma EntriesAfter<K, V>(s: Cache<K, V>, op: Op<K, V>, now: int, x: K)
    requires Unique(s.entries)
    ensures var before, r := Lookup(s.entries, x), Lookup(Lazy(s, op, now).0.entries, x);
      r.Some? ==>
        match op
        case Insert(k, v, start, ttl) => r == if x == k then Some(Entry(k, v, start + ttl)) else before
        case EntryInsert(k, v, written, ttl) => r == if x == k then Some(Entry(k, v, written + ttl)) else before
        case GetMut(k, w) =>
          r == if x == k && before.Some? && now <= before.value.expiration
               then Some(before.value.(value := w)) else before
        case EntryGet(k, w) =>
          r == if x == k && before.Some? && w.Some? then Some(before.value.(value := w.value)) else before
        case _ => r == before
  {
    var m := s.entries;
    match op
    case Insert(k, v, start, ttl) => PushedLookup(m, Entry(k, v, start + ttl), s.cap, x);
    case GetMut(_, _) => LookupAfter(s, op, now, x);
    case Remove(_) => LookupAfter(s, op, now, x);
    case EntryInsert(_, _, _, _) => LookupAfter(s, op, now, x);
    case EntryGet(_, _) => LookupAfter(s, op, now, x);
    case SetCapacity(c) => LookupSuffix(m, |m| - |Youngest(m, c)|, x);
    case Iter =>
      var n := TrimmedIsSuffix(m, now);
      LookupSuffix(m, n, x);
    case _ =>
  }

  lemma PushedLookup<K, V>(m: seq<Entry<K, V>>, e: Entry<K, V>, cap: nat, k: K)
    requires Unique(m)
    ensures var r := DropOldestOver(Pushed(m, e), cap);
      Lookup(r, k).Some? ==> Lookup(r, k) == if k == e.key then Some(e) else Lookup(m, k)
  {
    var full := Pushed(m, e);
    PushedUnique(m, e);
    LookupAppend(ShiftRemove(m, e.key), e, k);
    LookupRemove(m, e.key, k);
    if |full| > cap && full[0].key == k {
      assert Keys(full)[0] == k && Keys(full[1..]) == Keys(full)[1..];
      LookupKeys(full[1..], k);
    }
  }

  /** A suffix of the map looks up what it still has. */
  lemma {:induction false} LookupSuffix<K, V>(m: seq<Entry<K, V>>, n: nat, k: K)
    requires Unique(m) && n <= |m|
    ensures Lookup(m[n..], k).Some? ==> Lookup(m[n..], k) == Lookup(m, k)
  {
    if n > 0 {
      SliceUnique(m, 1);
      LookupSuffix(m[1..], n - 1, k);
      assert m[1..][n - 1..] == m[n..];
      if m[0].key == k {
        assert Keys(m)[0] == k && Keys(m[1..]) == Keys(m)[1..];
        LookupKeys(m[1..], k);
      }
    }
  }

  // ---------- replies ----------

  /** `get` finds the value of an entry that has not expired. Everything else that looks a key up replies as it does. */
  lemma Replies<K, V>(s: Cache<K, V>, op: Op<K, V>, now: int)
    ensures
      match op
      case Get(k) =>
        var found := Lookup(s.entries, k);
        Lazy(s, op, now).1 ==
          Value(if found.Some? && now <= found.value.expiration then Some(found.value.value) else None)
      case ContainsKey(k) => Lazy(s, op, now).1 == Flag(Lazy(s, Get(k), now).1 != Value(None))
      case Insert(k, _, _, _) => Lazy(s, op, now).1 == Lazy(s, Get(k), now).1
      case GetMut(k, _) => Lazy(s, op, now).1 == Lazy(s, Get(k), now).1
      case Remove(k) => Lazy(s, op, now).1 == Lazy(s, Get(k), now).1
      case EntryInsert(k, _, _, _) => Lazy(s, op, now).1 == Lazy(s, Get(k), now).1
      case EntryGet(k, _) => Lazy(s, op, now).1 == Lazy(s, Get(k), now).1
      case SetCapacity(_) => Lazy(s, op, now).1 == Done
      case Clear => Lazy(s, op, now).1 == Done
      case Iter => Lazy(s, op, now).1.Items?
  {
    if op.EntryInsert? || op.EntryGet? {
      LookupRemove(s.entries, op.key, op.key);
    }
  }

  lemma {:induction false} LiveMembers<K, V>(m: seq<Entry<K, V>>, now: int)
    ensures forall e :: e in Live(m, now) <==> e in m && !Expired(e, now)
  {
    if m != [] {
      LiveMembers(m[1..], now);
      assert m == [m[0]] + m[1..];
    }
  }

  lemma {:induction false} LookupMember<K, V>(m: seq<Entry<K, V>>, e: Entry<K, V>)
    requires Unique(m) && e in m
    ensures Lookup(m, e.key) == Some(e)
  {
    SliceUnique(m, 1);
    if m[0] != e {
      var i :| 0 <= i < |m| && m[i] == e;
      assert Keys(m)[0] != Keys(m)[i];
      assert m[1..][i - 1] == e;
      LookupMember(m[1..], e);
    }
  }

  lemma {:induction false} LivePairs<K, V>(m: seq<Entry<K, V>>, now: int)
    ensures Sub(PairsOf(Live(m, now)), PairsOf(m))
  {
    if m != [] {
      LivePairs(m[1..], now);
      var first := (m[0].key, m[0].value);
      SubCons(PairsOf(Live(m[1..], now)), first, PairsOf(m[1..]));
      assert PairsOf(m) == [first] + PairsOf(m[1..]);
      assert !Expired(m[0], now) ==> PairsOf(Live(m, now)) == [first] + PairsOf(Live(m[1..], now));
    }
  }

  /** `iter` lists exactly what `get` would find, in the order of the map and nothing twice. */
  lemma IterReplies<K, V>(s: Cache<K, V>, now: int)
    requires Unique(s.entries)
    ensures var items := Lazy(s, Iter, now).1.items;
      && (forall k, v :: (k, v) in items <==> Lazy(s, Get(k), now).1 == Value(Some(v)))
      && Sub(items, PairsOf(s.entries))
  {
    var m := s.entries;
    var live := Live(m, now);
    LiveTrimmed(m, now);
    LiveMembers(m, now);
    LivePairs(m, now);
    forall k, v
      ensures (k, v) in PairsOf(live) <==> Lazy(s, Get(k), now).1 == Value(Some(v))
    {
      LookupKeys(m, k);
      if (k, v) in PairsOf(live) {
        var i :| 0 <= i < |live| && PairsOf(live)[i] == (k, v);
        LookupMember(m, live[i]);
      }
      if Lazy(s, Get(k), now).1 == Value(Some(v)) {
        var e := Lookup(m, k).value;
        var i :| 0 <= i < |live| && live[i] == e;
        assert PairsOf(live)[i] == (k, v);
      }
    }
  }


  lemma GetMutOrder<K, V>(m: seq<Entry<K, V>>, k: K, w: V)
    ensures Lookup(m, k).Some? ==> Keys(Overwrite(m, k, Lookup(m, k).value.(value := w))) == Keys(m)
  {
    if Lookup(m, k).Some? {
      LookupKeys(m, k);
      KeysOverwrite(m, k, Lookup(m, k).value.(value := w));
    }
  }

  lemma InsertOrder<K, V>(m: seq<Entry<K, V>>, e: Entry<K, V>, cap: nat)
    ensures var all := Without(Keys(m), e.key) + [e.key];
      Keys(DropOldestOver(Pushed(m, e), cap)) == if |all| > cap then all[1..] else all
  {
    var full := Pushed(m, e);
    KeysRemove(m, e.key);
    KeysAppend(ShiftRemove(m, e.key), e);
    assert |full| > cap ==> Keys(full[1..]) == Keys(full)[1..];
  }

  lemma KeysAppend<K, V>(m: seq<Entry<K, V>>, e: Entry<K, V>)
    ensures Keys(m + [e]) == Keys(m) + [e.key]
  {
  }

  lemma EntryInsertOrder<K, V>(m: seq<Entry<K, V>>, e: Entry<K, V>, now: int)
    ensures var viewed, k := EntryView(m, e.key, now), e.key;
      if Fresh(Lookup(m, k), now).Some?
      then Lookup(viewed, k).Some? && Keys(Overwrite(viewed, k, e)) == Keys(m)
      else Lookup(viewed, k).None? && Keys(viewed + [e]) == Without(Keys(m), k) + [k]
  {
    var k := e.key;
    if Fresh(Lookup(m, k), now).Some? {
      KeysOverwrite(m, k, e);
    } else if Lookup(m, k).Some? {
      LookupRemove(m, k, k);
      KeysRemove(m, k);
      KeysAppend(ShiftRemove(m, k), e);
    } else {
      LookupKeys(m, k);
      WithoutAbsent(Keys(m), k);
      KeysAppend(m, e);
    }
  }

  // ---------- size ----------

  /** Inserts through a vacant entry since the last `set_capacity` or `clear`; these never evict. */
  function Vacants<K(==), V>(cap: nat, run: seq<Timed<K, V>>): (r: nat) {
    if run == [] then 0
    else
      var init, last := run[..|run| - 1], run[|run| - 1];
      match last.op
      case SetCapacity(_) => 0
      case Clear => 0
      case EntryInsert(k, _, _, _) =>
        Vacants(cap, init) + if Fresh(Lookup(LazyRun(cap, init).entries, k), last.now).None? then 1 else 0
      case _ => Vacants(cap, init)
  }

  lemma SizeStep<K, V>(s: Cache<K, V>, op: Op<K, V>, now: int, extra: nat)
    requires Unique(s.entries) && |s.entries| <= s.cap + extra
    ensures var r := Lazy(s, op, now).0;
      match op
      case SetCapacity(c) => r.cap == c && |r.entries| <= c
      case Clear => r.entries == []
      case EntryInsert(k, _, _, _) =>
        |r.entries| <= r.cap + extra + if Fresh(Lookup(s.entries, k), now).None? then 1 else 0
      case _ => |r.entries| <= r.cap + extra
  {
    match op
    case Insert(k, v, start, ttl) => PushedUnique(s.entries, Entry(k, v, start + ttl));
    case EntryInsert(k, v, written, ttl) =>
      LookupRemove(s.entries, k, k);
      RemoveUnique(s.entries, k);
    case EntryGet(k, w) => RewrittenKeys(EntryView(s.entries, k, now), k, w);
    case _ =>
  }

  /** In every run the map holds at most the capacity plus the vacant inserts since it was last cut or cleared. */
  lemma {:induction false} SizeBound<K, V>(cap: nat, run: seq<Timed<K, V>>)
    ensures |LazyRun(cap, run).entries| <= LazyRun(cap, run).cap + Vacants(cap, run)
  {
    if run != [] {
      var init, last := run[..|run| - 1], run[|run| - 1];
      SizeBound(cap, init);
      RunUnique(cap, init);
      SizeStep(LazyRun(cap, init), last.op, last.now, Vacants(cap, init));
    }
  }

  /** The map is within its capacity after every operation. */
  ghost predicate AlwaysFits<K, V>(cap: nat, run: seq<Timed<K, V>>) {
    run != [] ==>
      AlwaysFits(cap, run[..|run| - 1]) && |LazyRun(cap, run).entries| <= LazyRun(cap, run).cap
  }

  /** There is room for what the operation adds without evicting: only a vacant insert can lack it. */
  predicate Room<K(==), V>(s: Cache<K, V>, op: Op<K, V>, now: int) {
    op.EntryInsert? && Fresh(Lookup(s.entries, op.key), now).None? ==>
      |ShiftRemove(s.entries, op.key)| < s.cap
  }

  ghost predicate AlwaysRoom<K, V>(cap: nat, run: seq<Timed<K, V>>) {
    run != [] ==>
      && AlwaysRoom(cap, run[..|run| - 1])
      && Room(LazyRun(cap, run[..|run| - 1]), run[|run| - 1].op, run[|run| - 1].now)
  }

  lemma RoomStep<K, V>(s: Cache<K, V>, op: Op<K, V>, now: int)
    requires Unique(s.entries) && |s.entries| <= s.cap
    ensures var r := Lazy(s, op, now).0; |r.entries| <= r.cap <==> Room(s, op, now)
  {
    SizeStep(s, op, now, 0);
    if op.EntryInsert? {
      LookupRemove(s.entries, op.key, op.key);
      LookupKeys(s.entries, op.key);
      RemoveUnique(s.entries, op.key);
    }
  }

  /** The exact condition for the cache to keep to its capacity: every vacant insert of the run finds room. */
  lemma {:induction false} FitsIffRoom<K, V>(cap: nat, run: seq<Timed<K, V>>)
    ensures AlwaysFits(cap, run) <==> AlwaysRoom(cap, run)
  {
    if run != [] {
      var init, last := run[..|run| - 1], run[|run| - 1];
      FitsIffRoom(cap, init);
      RunUnique(cap, init);
      if AlwaysFits(cap, init) {
        assert |LazyRun(cap, init).entries| <= LazyRun(cap, init).cap;
        RoomStep(LazyRun(cap, init), last.op, last.now);
      }
    }
  }
}
