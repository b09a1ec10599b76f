/**
 `TtlCache` as an object. Its methods are proved to do what the steps of `TtlRuns` say, and its
 iterators what `TtlIter` says. The map is the field `entries`. Clock readings are arguments, one
 for each time the source reads the clock; a loop reads `clock(0)`, `clock(1)` and so on.
 */
module TtlCache {
  import opened Wrappers
  import opened TtlMap
  import opened TtlRuns
  import Iterators = TtlIter

  /** What `entry` hands out: a place in the map, or a key that is not in it. */
  datatype EntryRef<K> = Occupied(key: K) | Vacant(key: K)

  /** The clock does not go back. */
  ghost predicate Monotone(clock: nat -> int) {
    forall i: nat, j: nat :: i <= j ==> clock(i) <= clock(j)
  }

  /** Entries that had expired when the loop reached them have expired at its last reading. */
  lemma {:induction false} TrimmedLater<K, V>(m: seq<Entry<K, V>>, n: nat, now: int)
    requires n <= |m|
    requires forall i :: 0 <= i < n ==> Expired(m[i], now)
    requires n < |m| ==> !Expired(m[n], now)
    ensures Trimmed(m, now) == m[n..]
  {
    if n > 0 {
      TrimmedLater(m[1..], n - 1, now);
    }
  }

  class TtlCache<K(==), V> {
    var entries: seq<Entry<K, V>>
    var maxSize: nat

    ghost predicate Valid()
      reads this
    {
      Unique(entries)
    }

    ghost function View(): Cache<K, V>
      reads this
    {
      Cache(entries, maxSize)
    }

    constructor (capacity: nat)
      ensures Valid() && View() == LazyRun(capacity, [])
    {
      entries := [];
      maxSize := capacity;
    }

    /** The deadline is counted from the first reading, `start`; the old entry is tested at the second, `now`. */
    method Insert(k: K, v: V, ttl: nat, start: int, now: int) returns (r: Option<V>)
      requires Valid()
      modifies this
      ensures Valid()
      ensures (View(), Value(r)) == Lazy(old(View()), Op.Insert(k, v, start, ttl), now)
    {
      LazyUnique(View(), Op.Insert(k, v, start, ttl), now);
      var toInsert := TtlMap.Entry(k, v, start + ttl);
      var oldVal := Lookup(entries, k);
      entries := ShiftRemove(entries, k);
      entries := entries + [toInsert];
      if |entries| > maxSize {
        RemoveOldest();
      }
      r := Fresh(oldVal, now);
    }

    method Get(k: K, now: int) returns (r: Option<V>)
      ensures (View(), Value(r)) == Lazy(View(), Op.Get(k), now)
    {
      var found := Lookup(entries, k);
      if found.Some? && !Expired(found.value, now) {
        r := Some(found.value.value);
      } else {
        r := None;
      }
    }

    method ContainsKey(k: K, now: int) returns (r: bool)
      ensures (View(), Flag(r)) == Lazy(View(), Op.ContainsKey(k), now)
    {
      var found := Get(k, now);
      r := found.Some?;
    }

    /** `get_mut`, with the caller's write through the reference it gets, if it gets one. */
    method GetMut(k: K, write: V, now: int) returns (r: Option<V>)
      requires Valid()
      modifies this
      ensures Valid()
      ensures (View(), Value(r)) == Lazy(old(View()), Op.GetMut(k, write), now)
    {
      LazyUnique(View(), Op.GetMut(k, write), now);
      var found := Lookup(entries, k);
      if found.Some? && !Expired(found.value, now) {
        r := Some(found.value.value);
        entries := Overwrite(entries, k, found.value.(value := write));
      } else {
        r := None;
      }
    }

    method Remove(k: K, now: int) returns (r: Option<V>)
      requires Valid()
      modifies this
      ensures Valid()
      ensures (View(), Value(r)) == Lazy(old(View()), Op.Remove(k), now)
    {
      LazyUnique(View(), Op.Remove(k), now);
      r := Fresh(Lookup(entries, k), now);
      entries := ShiftRemove(entries, k);
    }

    method SetCapacity(capacity: nat, ghost now: int)
      requires Valid()
      modifies this
      ensures Valid()
      ensures (View(), Done) == Lazy(old(View()), Op.SetCapacity(capacity), now)
    {
      LazyUnique(View(), Op.SetCapacity(capacity), now);
      var len := |entries|;
      var i := capacity;
      while i < len
        invariant capacity <= i && (i <= len || i == capacity)
        invariant maxSize == old(maxSize)
        invariant entries == old(entries)[i - capacity..]
      {
        RemoveOldest();
        i := i + 1;
      }
      maxSize := capacity;
    }

    method Clear(ghost now: int)
      requires Valid()
      modifies this
      ensures Valid()
      ensures (View(), Done) == Lazy(old(View()), Op.Clear, now)
    {
      entries := [];
    }

    /** Looks a key up for the entry API, after removing its entry if that has expired. */
    method Entry(k: K, now: int) returns (r: EntryRef<K>)
      requires Valid()
      modifies this
      ensures Valid() && maxSize == old(maxSize)
      ensures entries == EntryView(old(entries), k, now)
      ensures r == if Lookup(entries, k).Some? then Occupied(k) else Vacant(k)
    {
      RemoveUnique(entries, k);
      var found := Lookup(entries, k);
      var shouldRemove := found.Some? && Expired(found.value, now);
      if shouldRemove {
        entries := ShiftRemove(entries, k);
      }
      r := if Lookup(entries, k).Some? then Occupied(k) else Vacant(k);
    }

    /** `OccupiedEntry::insert`: in place, with a deadline counted from the reading `now`. */
    method OccupiedInsert(e: EntryRef<K>, v: V, ttl: nat, now: int) returns (r: V)
      requires Valid() && e.Occupied? && Lookup(entries, e.key).Some?
      modifies this
      ensures Valid() && maxSize == old(maxSize)
      ensures entries == Overwrite(old(entries), e.key, TtlMap.Entry(e.key, v, now + ttl))
      ensures r == Lookup(old(entries), e.key).value.value
    {
      KeysOverwrite(entries, e.key, TtlMap.Entry(e.key, v, now + ttl));
      r := Lookup(entries, e.key).value.value;
      entries := Overwrite(entries, e.key, TtlMap.Entry(e.key, v, now + ttl));
    }

    /** `VacantEntry::insert`: at the young end, without evicting. */
    method VacantInsert(e: EntryRef<K>, v: V, ttl: nat, now: int)
      requires Valid() && e.Vacant? && Lookup(entries, e.key).None?
      modifies this
      ensures Valid() && maxSize == old(maxSize)
      ensures entries == old(entries) + [TtlMap.Entry(e.key, v, now + ttl)]
    {
      LookupKeys(entries, e.key);
      AppendUnique(entries, TtlMap.Entry(e.key, v, now + ttl));
      entries := entries + [TtlMap.Entry(e.key, v, now + ttl)];
    }

    /** A caller that looks a key up at `now` and then inserts, at `written`, through whichever variant it gets. */
    method EntryInsert(k: K, v: V, ttl: nat, now: int, written: int) returns (r: Option<V>)
      requires Valid()
      modifies this
      ensures Valid()
      ensures (View(), Value(r)) == Lazy(old(View()), Op.EntryInsert(k, v, written, ttl), now)
    {
      var e := Entry(k, now);
      match e
      case Occupied(_) =>
        var prev := OccupiedInsert(e, v, ttl, written);
        r := Some(prev);
      case Vacant(_) =>
        VacantInsert(e, v, ttl, written);
        r := None;
    }

    /** A caller that looks a key up and does not insert, but may write through `OccupiedEntry::get_mut`. */
    method EntryGet(k: K, update: Option<V>, now: int) returns (r: Option<V>)
      requires Valid()
      modifies this
      ensures Valid()
      ensures (View(), Value(r)) == Lazy(old(View()), Op.EntryGet(k, update), now)
    {
      var e := Entry(k, now);
      match e
      case Occupied(_) =>
        var found := Lookup(entries, k).value;
        r := Some(found.value);
        if update.Some? {
          RewrittenKeys(entries, k, update);
          entries := Overwrite(entries, k, found.(value := update.value));
        }
      case Vacant(_) =>
        r := None;
    }

    /** Each entry tested is tested at a reading of its own; the outcome is that of testing all at the last. */
    method RemoveExpired(clock: nat -> int) returns (readings: nat)
      requires Valid() && Monotone(clock)
      modifies this
      ensures Valid() && maxSize == old(maxSize)
      ensures readings == |old(entries)| - |entries|
      ensures entries == Trimmed(old(entries), clock(readings))
    {
      readings := 0;
      while entries != [] && Expired(entries[0], clock(readings))
        invariant maxSize == old(maxSize)
        invariant readings <= |old(entries)| && entries == old(entries)[readings..]
        invariant forall i :: 0 <= i < readings ==> Expired(old(entries)[i], clock(i))
        decreases |entries|
      {
        entries := entries[1..];
        readings := readings + 1;
      }
      TrimmedLater(old(entries), readings, clock(readings));
      SliceUnique(old(entries), readings);
    }

    /** `shift_remove_index(0)`, which does nothing on an empty map. */
    method RemoveOldest()
      modifies this
      ensures maxSize == old(maxSize)
      ensures entries == if old(entries) == [] then [] else old(entries)[1..]
    {
      if entries != [] {
        entries := entries[1..];
      }
    }

    method NewIter(clock: nat -> int) returns (it: Iter<K, V>, now: int)
      requires Valid() && Monotone(clock)
      modifies this
      ensures Valid() && fresh(it)
      ensures exists i: nat :: now == clock(i)
      ensures it.rest == entries
      ensures (View(), Items(PairsOf(Iterators.Forward(it.rest, now)))) == Lazy(old(View()), Op.Iter, now)
    {
      var readings := RemoveExpired(clock);
      now := clock(readings);
      Iterators.ForwardIsLive(entries, now);
      it := new Iter(entries);
    }
  }

  /** `Iter` and `IterMut`, which step alike; the hidden state is what is left of the map. */
  class Iter<K, V> {
    var rest: seq<Entry<K, V>>

    constructor (entries: seq<Entry<K, V>>)
      ensures rest == entries
    {
      rest := entries;
    }

    /**
     Reads the clock once for each entry it looks at, from reading `i` on. The outcome is that of one reading:
     the last one made.
     */
    method Next(clock: nat -> int, i: nat) returns (r: Option<(K, V)>, last: nat)
      requires Monotone(clock)
      modifies this
      ensures last >= i
      ensures var (item, left) := Iterators.Next(old(rest), clock(last));
        r == Iterators.PairOf(item) && rest == left
      decreases |rest|
    {
      if rest == [] {
        return None, i;
      }
      var entry := rest[0];
      rest := rest[1..];
      if Expired(entry, clock(i)) {
        r, last := Next(clock, i + 1);
      } else {
        r, last := Some((entry.key, entry.value)), i;
      }
    }

    method NextBack(now: int) returns (r: Option<(K, V)>)
      modifies this
      ensures var (item, left) := Iterators.NextBack(old(rest), now);
        r == Iterators.PairOf(item) && rest == left
    {
      if rest == [] {
        return None;
      }
      var entry := rest[|rest| - 1];
      rest := rest[..|rest| - 1];
      if Expired(entry, now) {
        r := None;
      } else {
        r := Some((entry.key, entry.value));
      }
    }

    /** One call at the end asked for, with readings from `i` on. */
    method Take(end: Iterators.End, clock: nat -> int, i: nat) returns (r: Option<(K, V)>, last: nat)
      requires Monotone(clock)
      modifies this
      ensures last >= i
      ensures var (item, left) := Iterators.One(old(rest), Iterators.Call(end, clock(last)));
        r == Iterators.PairOf(item) && rest == left
    {
      match end
      case Front => r, last := Next(clock, i);
      case Back =>
        last := i;
        r := NextBack(clock(i));
    }

    /**
     A caller that takes from either end as `ends` says, and what it gets: an iteration of `TtlIter`, each of its calls
     at the last clock reading it made. The clock is read `readings` times.
     */
    method Walk(ends: seq<Iterators.End>, clock: nat -> int)
        returns (front: seq<(K, V)>, back: seq<(K, V)>, ghost calls: seq<Iterators.Call>, readings: nat)
      requires Monotone(clock)
      modifies this
      ensures |calls| == |ends| && (forall n :: 0 <= n < |ends| ==> calls[n].end == ends[n])
      ensures Iterators.During(calls, clock(0), clock(readings))
      ensures var it := Iterators.Iterate(old(rest), calls);
        front == PairsOf(it.front) && back == PairsOf(it.back) && rest == it.left
    {
      front, back, calls, readings := [], [], [], 0;
      for n := 0 to |ends|
        invariant |calls| == n && (forall i :: 0 <= i < n ==> calls[i].end == ends[i])
        invariant Iterators.During(calls, clock(0), clock(readings))
        invariant front == PairsOf(Iterators.Iterate(old(rest), calls).front)
        invariant back == PairsOf(Iterators.Iterate(old(rest), calls).back)
        invariant rest == Iterators.Iterate(old(rest), calls).left
      {
        var item, last := Take(ends[n], clock, readings);
        ghost var call := Iterators.Call(ends[n], clock(last));
        Iterators.DuringMore(calls, call, clock(0), clock(readings), clock(last + 1));
        Iterators.OneMore(old(rest), calls, call);
        front := front + if ends[n].Front? then Iterators.Listed(item) else [];
        back := back + if ends[n].Back? then Iterators.Listed(item) else [];
        calls := calls + [call];
        readings := last + 1;
      }
    }
  }

  /** A cache that lives through a whole run: the theorems about runs are theorems about the object. */
  method Replay<K(==), V>(cap: nat, run: seq<Timed<K, V>>) returns (c: TtlCache<K, V>)
    ensures fresh(c) && c.Valid() && c.View() == LazyRun(cap, run)
  {
    c := new TtlCache(cap);
    for n := 0 to |run|
      invariant fresh(c) && c.Valid() && c.View() == LazyRun(cap, run[..n])
    {
      assert run[..n + 1][..n] == run[..n];
      var now := run[n].now;
      match run[n].op
      case Insert(k, v, start, ttl) => var _ := c.Insert(k, v, ttl, start, now);
      case Get(k) => var _ := c.Get(k, now);
      case GetMut(k, w) => var _ := c.GetMut(k, w, now);
      case ContainsKey(k) => var _ := c.ContainsKey(k, now);
      case Remove(k) => var _ := c.Remove(k, now);
      case SetCapacity(capacity) => c.SetCapacity(capacity, now);
      case Clear => c.Clear(now);
      case Iter => var _, _ := c.NewIter(_ => now);
      case EntryInsert(k, v, written, ttl) => var _ := c.EntryInsert(k, v, ttl, now, written);
      case EntryGet(k, update) => var _ := c.EntryGet(k, update, now);
    }
    assert run[..|run|] == run;
  }
}
