/** What a lookup in the time-to-live cache finds, decided by the history of inserts, or of the key alone. */
module TtlHistory {
  import opened Wrappers
  import opened Recency
  import opened TtlMap
  import opened TtlRuns

  // ---------- lookups decided by the history ----------

  /** Only inserts and lookups. */
  ghost predicate InsertsAndLookups<K, V>(run: seq<Timed<K, V>>) {
    forall i :: 0 <= i < |run| ==> run[i].op.Insert? || run[i].op.Get? || run[i].op.ContainsKey?
  }

  function Inserted<K, V>(run: seq<Timed<K, V>>): seq<K> {
    if run == [] then []
    else
      var past, last := Inserted(run[..|run| - 1]), run[|run| - 1];
      if last.op.Insert? then past + [last.op.key] else past
  }

  function LatestInsert<K(==), V>(run: seq<Timed<K, V>>, k: K): Option<Entry<K, V>> {
    if run == [] then None
    else
      var last := run[|run| - 1];
      if last.op.Insert? && last.op.key == k then Some(Incoming(last.op))
      else LatestInsert(run[..|run| - 1], k)
  }

  /** Read from the young end, pushing an entry and evicting the oldest is touching its key and cutting. */
  lemma PushedReverse<K, V>(m: seq<Entry<K, V>>, e: Entry<K, V>, cap: nat)
    requires Unique(m) && |m| <= cap
    ensures Reverse(Keys(DropOldestOver(Pushed(m, e), cap))) == Take(Touch(Reverse(Keys(m)), e.key), cap)
  {
    var full := Pushed(m, e);
    PushedUnique(m, e);
    KeysRemove(m, e.key);
    assert Keys(full) == Without(Keys(m), e.key) + [e.key];
    ReverseSnoc(Without(Keys(m), e.key), e.key);
    ReverseWithout(Keys(m), e.key);
    assert Reverse(Keys(full)) == Touch(Reverse(Keys(m)), e.key);
    ReverseLength(Keys(full));
    if |full| > cap {
      assert Keys(full[1..]) == Keys(full)[1..];
    }
  }

  lemma {:induction false} KeysByHistory<K, V>(cap: nat, run: seq<Timed<K, V>>)
    requires InsertsAndLookups(run)
    ensures LazyRun(cap, run).cap == cap && |LazyRun(cap, run).entries| <= cap
    ensures Reverse(Keys(LazyRun(cap, run).entries)) == Take(Stack(Inserted(run)), cap)
  {
    if run != [] {
      var init, last := run[..|run| - 1], run[|run| - 1];
      KeysByHistory(cap, init);
      RunUnique(cap, init);
      if last.op.Insert? {
        var e := Incoming(last.op);
        PushedReverse(LazyRun(cap, init).entries, e, cap);
        PushedUnique(LazyRun(cap, init).entries, e);
        StackCut(Inserted(init), last.op.key, cap);
        assert Inserted(run) == Inserted(init) + [last.op.key];
      }
    }
  }

  lemma {:induction false} EntriesByHistory<K, V>(cap: nat, run: seq<Timed<K, V>>, k: K)
    requires InsertsAndLookups(run)
    ensures var found := Lookup(LazyRun(cap, run).entries, k); found.Some? ==> found == LatestInsert(run, k)
  {
    if run != [] {
      var init, last := run[..|run| - 1], run[|run| - 1];
      EntriesByHistory(cap, init, k);
      RunUnique(cap, init);
      if last.op.Insert? {
        PushedLookup(LazyRun(cap, init).entries, Incoming(last.op),
                     LazyRun(cap, init).cap, k);
      }
    }
  }

  /**
   A lookup is decided by the history of inserts: it finds the latest value inserted for the key exactly if that has not
   expired and fewer than `cap` other keys were inserted since. Times to live may differ, and lookups change nothing.
   */
  lemma GetByHistory<K, V>(cap: nat, run: seq<Timed<K, V>>, k: K, now: int)
    requires InsertsAndLookups(run)
    ensures var latest := LatestInsert(run, k);
      Lazy(LazyRun(cap, run), Get(k), now).1 ==
        Value(if Recent(Inserted(run), k, cap) && latest.Some? && now <= latest.value.expiration
              then Some(latest.value.value) else None)
  {
    var m := LazyRun(cap, run).entries;
    KeysByHistory(cap, run);
    EntriesByHistory(cap, run, k);
    StackMembers(Inserted(run), cap, k);
    LookupKeys(m, k);
    ReverseMembers(Keys(m), k);
  }

  // ---------- one key followed through a run of any operations ----------

  /** What is known of one key: its entry, and the keys inserted since that are still there. */
  datatype Fate<K, V> = Gone | Held(entry: Entry<K, V>, younger: set<K>)

  /** The key is known to have an entry that has not expired. */
  predicate Standing<K, V>(f: Fate<K, V>, now: int) {
    f.Held? && !Expired(f.entry, now)
  }

  /**
   What an operation means for key `k`, in a cache of capacity `cap`; `occupied` says whether the entry API finds the
   key of the operation occupied. No map is consulted.
   */
  function FateAfter<K(==), V>(f: Fate<K, V>, cap: nat, op: Op<K, V>, now: int, k: K, occupied: bool): Fate<K, V> {
    match op
    case Insert(x, _, _, _) =>
      if x == k then if cap == 0 then Gone else Held(Incoming(op), {})
      else if f.Held? && |f.younger + {x}| < cap then f.(younger := f.younger + {x})
      else Gone
    case GetMut(x, w) => if x == k && Standing(f, now) then f.(entry := f.entry.(value := w)) else f
    case Remove(x) =>
      if x == k then Gone else if f.Held? then f.(younger := f.younger - {x}) else f
    case SetCapacity(c) => if f.Held? && |f.younger| < c then f else Gone
    case Clear => Gone
    case EntryInsert(x, _, _, _) =>
      if x == k then
        if f.Held? && occupied then f.(entry := Incoming(op)) else Held(Incoming(op), {})
      else if f.Held? && !occupied then f.(younger := f.younger + {x}) else f
    case EntryGet(x, w) =>
      if x == k then
        if !occupied || f.Gone? then Gone else if w.Some? then f.(entry := f.entry.(value := w.value)) else f
      else if f.Held? && !occupied then f.(younger := f.younger - {x}) else f
    case _ => f
  }

  function CapacityAfter<K, V>(cap: nat, run: seq<Timed<K, V>>): nat {
    if run == [] then cap
    else
      var last := run[|run| - 1].op;
      if last.SetCapacity? then last.cap else CapacityAfter(cap, run[..|run| - 1])
  }

  /**
   The fate of key `k` in a run: an insert counts against it only while the inserted key is still there. What the entry
   API finds is told by the fate of the key it is asked for.
   */
  function Follow<K(==), V>(cap: nat, run: seq<Timed<K, V>>, k: K): Fate<K, V> {
    if run == [] then Gone
    else
      var init, last := run[..|run| - 1], run[|run| - 1];
      var occupied := (last.op.EntryInsert? || last.op.EntryGet?) && Standing(Follow(cap, init, last.op.key), last.now);
      FateAfter(Follow(cap, init, k), CapacityAfter(cap, init), last.op, last.now, k, occupied)
  }

  /** The keys of a map from young to old. */
  function Young<K, V>(m: seq<Entry<K, V>>): seq<K> {
    Reverse(Keys(m))
  }

  /** The fate tells the truth about the map; only an entry that has expired may be gone without being known to be. */
  ghost predicate Tells<K, V>(f: Fate<K, V>, m: seq<Entry<K, V>>, k: K, now: int) {
    && (Lookup(m, k).Some? ==> f == Held(Lookup(m, k).value, Before(Young(m), k)))
    && (Lookup(m, k).None? && f.Held? ==> Expired(f.entry, now))
  }

  lemma YoungKeys<K, V>(m: seq<Entry<K, V>>, k: K)
    requires Unique(m)
    ensures Distinct(Young(m)) && |Young(m)| == |m|
    ensures Lookup(m, k).Some? <==> k in Young(m)
  {
    LookupKeys(m, k);
    ReverseMembers(Keys(m), k);
    ReverseLength(Keys(m));
    ReverseDistinct(Keys(m));
  }

  /** Cutting a list keeps a key exactly if few enough are in front of it, and then those in front stay. */
  lemma {:induction false} TakeBefore<K>(l: seq<K>, n: nat, k: K)
    requires Distinct(l) && k in l
    ensures k in Take(l, n) <==> |Before(l, k)| < n
    ensures k in Take(l, n) ==> Before(Take(l, n), k) == Before(l, k)
  {
    var i :| 0 <= i < |l| && l[i] == k;
    BeforeCount(l, i);
    if k in Take(l, n) {
      BeforePrefix(l, |Take(l, n)|, k);
    }
  }

  lemma {:induction false} BeforePrefix<K>(l: seq<K>, n: nat, k: K)
    requires n <= |l| && k in l[..n]
    ensures Before(l[..n], k) == Before(l, k)
  {
    if l[0] != k {
      assert l[..n][1..] == l[1..][..n - 1];
      BeforePrefix(l[1..], n - 1, k);
    }
  }

  /** A suffix of the map is a cut of its keys from young to old. */
  lemma YoungSuffix<K, V>(m: seq<Entry<K, V>>, n: nat)
    requires n <= |m|
    ensures Young(m[n..]) == Take(Young(m), |m| - n)
  {
    ReverseLength(Keys(m));
    ReverseLength(Keys(m[..n]));
    ReverseLength(Keys(m[n..]));
    assert Keys(m) == Keys(m[..n]) + Keys(m[n..]);
    ReverseConcat(Keys(m[..n]), Keys(m[n..]));
  }

  /** Any suffix of the map is told by the same fate, if what was cut off had expired or the fate knows of it. */
  lemma SuffixTells<K, V>(f: Fate<K, V>, m: seq<Entry<K, V>>, n: nat, k: K, now: int)
    requires Unique(m) && n <= |m| && Tells(f, m, k, now)
    ensures Lookup(m[n..], k).Some? ==> Lookup(m, k).Some? && Tells(f, m[n..], k, now)
    ensures Lookup(m, k).Some? ==> (Lookup(m[n..], k).Some? <==> |f.younger| < |m| - n)
  {
    SliceUnique(m, n);
    LookupSuffix(m, n, k);
    if Lookup(m, k).Some? {
      SuffixBefore(m, n, k);
    }
  }

  lemma YoungCut<K, V>(m: seq<Entry<K, V>>, n: nat, k: K)
    requires Unique(m) && n <= |m|
    ensures Young(m[n..]) == Take(Young(m), |m| - n)
    ensures Lookup(m[n..], k).Some? <==> k in Take(Young(m), |m| - n)
  {
    SliceUnique(m, n);
    YoungKeys(m[n..], k);
    YoungSuffix(m, n);
  }

  lemma SuffixBefore<K, V>(m: seq<Entry<K, V>>, n: nat, k: K)
    requires Unique(m) && n <= |m| && Lookup(m, k).Some?
    ensures Lookup(m[n..], k).Some? <==> |Before(Young(m), k)| < |m| - n
    ensures Lookup(m[n..], k).Some? ==> Before(Young(m[n..]), k) == Before(Young(m), k)
  {
    YoungKeys(m, k);
    YoungCut(m, n, k);
    var c: nat := |m| - n;
    var all := Young(m);
    TakeBefore(all, c, k);
    assert Young(m[n..]) == Take(all, c);
  }

  lemma InsertTells<K, V>(f: Fate<K, V>, s: Cache<K, V>, op: Op<K, V>, now: int, k: K)
    requires Unique(s.entries) && |s.entries| <= s.cap && Tells(f, s.entries, k, now) && op.Insert?
    ensures Tells(FateAfter(f, s.cap, op, now, k, false), Lazy(s, op, now).0.entries, k, now)
  {
    var m, e := s.entries, Incoming(op);
    PushedLookup(m, e, s.cap, k);
    PushedYoung(m, e, s.cap, k);
    if e.key != k && Lookup(m, k).Some? {
      YoungKeys(m, k);
      BeforeTouch(Young(m), e.key, k);
    }
  }

  /** Which keys a push leaves in a map within its capacity, and which keys are then younger than them. */
  lemma PushedYoung<K, V>(m: seq<Entry<K, V>>, e: Entry<K, V>, cap: nat, k: K)
    requires Unique(m) && |m| <= cap
    ensures var r, touched := DropOldestOver(Pushed(m, e), cap), Touch(Young(m), e.key);
      && (Lookup(r, k).Some? <==> (k == e.key || Lookup(m, k).Some?) && |Before(touched, k)| < cap)
      && (Lookup(r, k).Some? ==> Before(Young(r), k) == Before(touched, k))
  {
    var r, touched := DropOldestOver(Pushed(m, e), cap), Touch(Young(m), e.key);
    PushedUnique(m, e);
    SliceUnique(Pushed(m, e), if |Pushed(m, e)| > cap then 1 else 0);
    PushedReverse(m, e, cap);
    YoungKeys(m, k);
    YoungKeys(r, k);
    TouchDistinct(Young(m), e.key);
    WithoutMembers(Young(m), e.key);
    if k in touched {
      TakeBefore(touched, cap, k);
    }
  }

  lemma RemoveTells<K, V>(f: Fate<K, V>, s: Cache<K, V>, op: Op<K, V>, now: int, k: K)
    requires Unique(s.entries) && Tells(f, s.entries, k, now) && op.Remove?
    ensures Tells(FateAfter(f, s.cap, op, now, k, false), Lazy(s, op, now).0.entries, k, now)
  {
    var m := s.entries;
    LookupRemove(m, op.key, k);
    KeysRemove(m, op.key);
    ReverseWithout(Keys(m), op.key);
    YoungKeys(m, k);
    if op.key != k && Lookup(m, k).Some? {
      BeforeWithout(Young(m), op.key, k);
    }
  }

  lemma GetMutTells<K, V>(f: Fate<K, V>, s: Cache<K, V>, op: Op<K, V>, now: int, k: K)
    requires Unique(s.entries) && Tells(f, s.entries, k, now) && op.GetMut?
    ensures Tells(FateAfter(f, s.cap, op, now, k, false), Lazy(s, op, now).0.entries, k, now)
  {
    LookupAfter(s, op, now, k);
    OrderAfter(s, op, now);
  }

  /** What the entry API does to the keys before a given one, read from the young end. */
  lemma YoungAfterEntry<K, V>(m: seq<Entry<K, V>>, r: seq<Entry<K, V>>, x: K, k: K, inserted: bool)
    requires Unique(m) && Unique(r)
    requires Keys(r) == Without(Keys(m), x) + if inserted then [x] else []
    ensures k == x && inserted ==> Before(Young(r), k) == {}
    ensures k != x && Lookup(m, k).Some? ==>
      Before(Young(r), k) == if inserted then Before(Young(m), k) + {x} else Before(Young(m), k) - {x}
  {
    var w := Without(Keys(m), x);
    ReverseWithout(Keys(m), x);
    ReverseSnoc(w, x);
    assert w + [] == w;
    YoungKeys(m, k);
    if k != x && Lookup(m, k).Some? {
      BeforeTouch(Young(m), x, k);
      BeforeWithout(Young(m), x, k);
    }
  }

  lemma VacantTells<K, V>(f: Fate<K, V>, s: Cache<K, V>, op: Op<K, V>, now: int, k: K)
    requires Unique(s.entries) && Tells(f, s.entries, k, now) && (op.EntryInsert? || op.EntryGet?)
    requires Fresh(Lookup(s.entries, op.key), now).None?
    ensures Tells(FateAfter(f, s.cap, op, now, k, false), Lazy(s, op, now).0.entries, k, now)
  {
    var m, r := s.entries, Lazy(s, op, now).0.entries;
    LookupAfter(s, op, now, k);
    OrderAfter(s, op, now);
    LazyUnique(s, op, now);
    WithoutAway(m, op.key);
    assert Without(Keys(m), op.key) + [] == Without(Keys(m), op.key);
    YoungAfterEntry(m, r, op.key, k, op.EntryInsert?);
  }

  lemma OccupiedTells<K, V>(f: Fate<K, V>, s: Cache<K, V>, op: Op<K, V>, now: int, k: K)
    requires Unique(s.entries) && Tells(f, s.entries, k, now) && (op.EntryInsert? || op.EntryGet?)
    requires Fresh(Lookup(s.entries, op.key), now).Some?
    ensures Tells(FateAfter(f, s.cap, op, now, k, true), Lazy(s, op, now).0.entries, k, now)
  {
    LookupAfter(s, op, now, k);
    OrderAfter(s, op, now);
  }

  lemma WithoutAway<K, V>(m: seq<Entry<K, V>>, x: K)
    ensures Lookup(m, x).None? ==> Without(Keys(m), x) == Keys(m)
  {
    LookupKeys(m, x);
    if Lookup(m, x).None? {
      WithoutAbsent(Keys(m), x);
    }
  }

  lemma CutTells<K, V>(f: Fate<K, V>, s: Cache<K, V>, op: Op<K, V>, now: int, k: K)
    requires Unique(s.entries) && Tells(f, s.entries, k, now) && (op.SetCapacity? || op.Iter? || op.Clear?)
    ensures Tells(FateAfter(f, s.cap, op, now, k, false), Lazy(s, op, now).0.entries, k, now)
  {
    var m := s.entries;
    match op
    case SetCapacity(c) =>
      var n := |m| - |Youngest(m, c)|;
      assert m[n..] == Youngest(m, c);
      SuffixTells(f, m, n, k, now);
      SuffixTells(f, m, 0, k, now);
      assert m[0..] == m;
    case Iter =>
      var n := TrimmedIsSuffix(m, now);
      SuffixTells(f, m, n, k, now);
      TrimmedKey(m, n, k, now);
    case Clear =>
  }

  /** A key that trimming removes has expired. */
  lemma {:induction false} TrimmedKey<K, V>(m: seq<Entry<K, V>>, n: nat, k: K, now: int)
    requires n <= |m| && (forall i :: 0 <= i < n ==> Expired(m[i], now))
    ensures Lookup(m, k).Some? && Lookup(m[n..], k).None? ==> Expired(Lookup(m, k).value, now)
  {
    if n > 0 && m[0].key != k {
      TrimmedKey(m[1..], n - 1, k, now);
      assert m[1..][n - 1..] == m[n..];
    }
  }

  /** No plain insert meets a map that is beyond its capacity, where evicting one entry is not enough. */
  ghost predicate InsertsFit<K, V>(cap: nat, run: seq<Timed<K, V>>) {
    run != [] ==>
      var init, last := run[..|run| - 1], run[|run| - 1];
      && InsertsFit(cap, init)
      && (last.op.Insert? ==> |LazyRun(cap, init).entries| <= LazyRun(cap, init).cap)
  }

  lemma {:induction false} FittingInserts<K, V>(cap: nat, run: seq<Timed<K, V>>)
    requires AlwaysFits(cap, run)
    ensures InsertsFit(cap, run)
  {
    if run != [] {
      var init := run[..|run| - 1];
      FittingInserts(cap, init);
      assert |LazyRun(cap, init).entries| <= LazyRun(cap, init).cap;
    }
  }

  /** It is enough that vacant inserts find room. */
  lemma RoomIsEnough<K, V>(cap: nat, run: seq<Timed<K, V>>)
    requires AlwaysRoom(cap, run)
    ensures InsertsFit(cap, run)
  {
    FitsIffRoom(cap, run);
    FittingInserts(cap, run);
  }

  /** The fate of every key is followed rightly. */
  lemma {:induction false} FollowTells<K, V>(cap: nat, run: seq<Timed<K, V>>, k: K, now: int)
    requires Timely(run) && InsertsFit(cap, run) && (forall i :: 0 <= i < |run| ==> run[i].now <= now)
    ensures Tells(Follow(cap, run, k), LazyRun(cap, run).entries, k, now)
    ensures LazyRun(cap, run).cap == CapacityAfter(cap, run)
  {
    if run != [] {
      var init, last := run[..|run| - 1], run[|run| - 1];
      forall i | 0 <= i < |init|
        ensures init[i].now <= last.now
      {
        assert init[i] == run[i] && run[i].Ended() <= run[|init|].Started();
      }
      FollowTells(cap, init, k, last.now);
      RunUnique(cap, init);
      var f, s := Follow(cap, init, k), LazyRun(cap, init);
      if last.op.EntryInsert? || last.op.EntryGet? {
        FollowTells(cap, init, last.op.key, last.now);
        if Standing(Follow(cap, init, last.op.key), last.now) {
          OccupiedTells(f, s, last.op, last.now, k);
        } else {
          VacantTells(f, s, last.op, last.now, k);
        }
      } else if last.op.Insert? {
        InsertTells(f, s, last.op, last.now, k);
      } else if last.op.Remove? {
        RemoveTells(f, s, last.op, last.now, k);
      } else if last.op.GetMut? {
        GetMutTells(f, s, last.op, last.now, k);
      } else if last.op.SetCapacity? || last.op.Iter? || last.op.Clear? {
        CutTells(f, s, last.op, last.now, k);
      }
    }
  }

  /**
   Every lookup, in runs of all operations in which plain inserts fit, is decided by the history of its own key,
   counting only the keys inserted since that have not been removed.
   */
  lemma GetByFate<K, V>(cap: nat, run: seq<Timed<K, V>>, k: K, now: int)
    requires Timely(run) && InsertsFit(cap, run) && (forall i :: 0 <= i < |run| ==> run[i].now <= now)
    ensures var f := Follow(cap, run, k);
      Lazy(LazyRun(cap, run), Get(k), now).1 ==
        Value(if f.Held? && now <= f.entry.expiration then Some(f.entry.value) else None)
  {
    FollowTells(cap, run, k, now);
  }

  /** So is the reply of everything else that looks a key up. */
  lemma RepliesByFate<K, V>(cap: nat, run: seq<Timed<K, V>>, op: Op<K, V>, now: int)
    requires Timely(run) && InsertsFit(cap, run) && (forall i :: 0 <= i < |run| ==> run[i].now <= now)
    requires !op.SetCapacity? && !op.Clear? && !op.Iter?
    ensures var f := Follow(cap, run, op.key);
      var found := if f.Held? && now <= f.entry.expiration then Some(f.entry.value) else None;
      Lazy(LazyRun(cap, run), op, now).1 == if op.ContainsKey? then Flag(found.Some?) else Value(found)
  {
    GetByFate(cap, run, op.key, now);
    Replies(LazyRun(cap, run), op, now);
  }
}
