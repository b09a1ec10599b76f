/**
 The map inside the time-to-live cache: entries with distinct keys in insertion order, each
 with the instant at which it expires. Instants are integers, durations naturals.
 */
module TtlMap {
  import opened Wrappers
  import opened Recency

  datatype Entry<K, V> = Entry(key: K, value: V, expiration: int)

  predicate Expired<K, V>(e: Entry<K, V>, now: int) {
    now > e.expiration
  }

  function Keys<K, V>(m: seq<Entry<K, V>>): (r: seq<K>)
    ensures |r| == |m|
    ensures forall i :: 0 <= i < |m| ==> r[i] == m[i].key
  {
    seq(|m|, i requires 0 <= i < |m| => m[i].key)
  }

  /** `IndexMap::get`. */
  function Lookup<K(==), V>(m: seq<Entry<K, V>>, k: K): Option<Entry<K, V>> {
    if m == [] then None
    else if m[0].key == k then Some(m[0])
    else Lookup(m[1..], k)
  }

  /** `IndexMap::shift_remove`: the entry of `k` goes, the others keep their order. */
  function ShiftRemove<K(==), V>(m: seq<Entry<K, V>>, k: K): (r: seq<Entry<K, V>>)
    ensures |r| <= |m|
  {
    if m == [] then []
    else if m[0].key == k then ShiftRemove(m[1..], k)
    else [m[0]] + ShiftRemove(m[1..], k)
  }

  /** The entry of `k` overwritten where it stands. */
  function Overwrite<K(==), V>(m: seq<Entry<K, V>>, k: K, e: Entry<K, V>): (r: seq<Entry<K, V>>)
    ensures |r| == |m|
  {
    if m == [] then []
    else [if m[0].key == k then e else m[0]] + Overwrite(m[1..], k, e)
  }

  /** The unexpired entries, in order. */
  function Live<K, V>(m: seq<Entry<K, V>>, now: int): (r: seq<Entry<K, V>>)
    ensures |r| <= |m|
  {
    if m == [] then []
    else if Expired(m[0], now) then Live(m[1..], now)
    else [m[0]] + Live(m[1..], now)
  }

  /** The value of an entry that is there and unexpired. */
  function Fresh<K, V>(e: Option<Entry<K, V>>, now: int): Option<V> {
    if e.Some? && !Expired(e.value, now) then Some(e.value.value) else None
  }

  /** The last `n` entries, or all if there are fewer. */
  function Youngest<K, V>(m: seq<Entry<K, V>>, n: nat): (r: seq<Entry<K, V>>)
    ensures |r| == if |m| <= n then |m| else n
  {
    if |m| <= n then m else m[|m| - n..]
  }

  /** Without the expired entries at the old end. */
  function Trimmed<K, V>(m: seq<Entry<K, V>>, now: int): (r: seq<Entry<K, V>>)
    ensures |r| <= |m|
  {
    if m != [] && Expired(m[0], now) then Trimmed(m[1..], now) else m
  }

  /** Older entries expire no later. */
  ghost predicate Sorted<K, V>(m: seq<Entry<K, V>>) {
    forall i, j :: 0 <= i < j < |m| ==> m[i].expiration <= m[j].expiration
  }

  ghost predicate Unique<K, V>(m: seq<Entry<K, V>>) {
    Distinct(Keys(m))
  }

  // ---------- lookups and removals ----------

  lemma {:induction false} LookupKeys<K, V>(m: seq<Entry<K, V>>, k: K)
    ensures Lookup(m, k).Some? <==> k in Keys(m)
    ensures Lookup(m, k).Some? ==> Lookup(m, k).value.key == k && Lookup(m, k).value in m
  {
    if m != [] {
      LookupKeys(m[1..], k);
      assert Keys(m) == [m[0].key] + Keys(m[1..]);
    }
  }

  lemma {:induction false} KeysRemove<K, V>(m: seq<Entry<K, V>>, k: K)
    ensures Keys(ShiftRemove(m, k)) == Without(Keys(m), k)
  {
    if m != [] {
      KeysRemove(m[1..], k);
      assert Keys(m) == [m[0].key] + Keys(m[1..]);
      if m[0].key != k {
        assert Keys(ShiftRemove(m, k)) == [m[0].key] + Keys(ShiftRemove(m[1..], k));
      }
    }
  }

  lemma RemoveUnique<K, V>(m: seq<Entry<K, V>>, k: K)
    requires Unique(m)
    ensures Unique(ShiftRemove(m, k))
    ensures |ShiftRemove(m, k)| == if k in Keys(m) then |m| - 1 else |m|
    ensures k !in Keys(ShiftRemove(m, k))
  {
    KeysRemove(m, k);
    WithoutDistinct(Keys(m), k);
  }

  lemma AppendUnique<K, V>(m: seq<Entry<K, V>>, e: Entry<K, V>)
    requires Unique(m) && e.key !in Keys(m)
    ensures Unique(m + [e])
  {
    assert Keys(m + [e]) == Keys(m) + [e.key];
  }

  lemma SliceUnique<K, V>(m: seq<Entry<K, V>>, lo: nat)
    requires Unique(m) && lo <= |m|
    ensures Unique(m[lo..])
  {
    assert Keys(m[lo..]) == Keys(m)[lo..];
  }

  lemma {:induction false} KeysOverwrite<K, V>(m: seq<Entry<K, V>>, k: K, e: Entry<K, V>)
    requires e.key == k
    ensures Keys(Overwrite(m, k, e)) == Keys(m)
  {
    if m != [] {
      KeysOverwrite(m[1..], k, e);
      assert Keys(m) == [m[0].key] + Keys(m[1..]);
      assert Keys(Overwrite(m, k, e)) == [m[0].key] + Keys(Overwrite(m[1..], k, e));
    }
  }

  lemma {:induction false} LookupAppend<K, V>(m: seq<Entry<K, V>>, e: Entry<K, V>, k: K)
    ensures Lookup(m + [e], k) == if Lookup(m, k).Some? then Lookup(m, k) else if e.key == k then Some(e) else None
  {
    if m == [] {
      assert m + [e] == [e];
      assert [e][1..] == [];
    } else {
      LookupAppend(m[1..], e, k);
      assert (m + [e])[0] == m[0] && (m + [e])[1..] == m[1..] + [e];
    }
  }

  lemma {:induction false} LookupRemove<K, V>(m: seq<Entry<K, V>>, k: K, x: K)
    ensures Lookup(ShiftRemove(m, k), x) == if x == k then None else Lookup(m, x)
  {
    if m != [] {
      LookupRemove(m[1..], k, x);
      if m[0].key != k {
        assert ShiftRemove(m, k)[1..] == ShiftRemove(m[1..], k);
      }
    }
  }

  // ---------- live entries ----------

  lemma LiveCons<K, V>(e: Entry<K, V>, m: seq<Entry<K, V>>, now: int)
    ensures Live([e] + m, now) == (if Expired(e, now) then [] else [e]) + Live(m, now)
  {
    assert ([e] + m)[1..] == m;
  }

  lemma {:induction false} LiveConcat<K, V>(a: seq<Entry<K, V>>, b: seq<Entry<K, V>>, now: int)
    ensures Live(a + b, now) == Live(a, now) + Live(b, now)
  {
    if a == [] {
      assert a + b == b;
    } else {
      LiveConcat(a[1..], b, now);
      LiveCons(a[0], a[1..], now);
      LiveCons(a[0], a[1..] + b, now);
      assert a == [a[0]] + a[1..] && a + b == [a[0]] + (a[1..] + b);
    }
  }

  lemma LiveSnoc<K, V>(m: seq<Entry<K, V>>, now: int)
    requires m != []
    ensures Live(m, now) == Live(m[..|m| - 1], now) + if Expired(m[|m| - 1], now) then [] else [m[|m| - 1]]
  {
    var last := m[|m| - 1];
    assert m == m[..|m| - 1] + [last];
    LiveConcat(m[..|m| - 1], [last], now);
    assert [last][1..] == [];
  }

  lemma {:induction false} LiveRemove<K, V>(m: seq<Entry<K, V>>, k: K, now: int)
    ensures Live(ShiftRemove(m, k), now) == ShiftRemove(Live(m, now), k)
  {
    if m != [] {
      LiveRemove(m[1..], k, now);
      if m[0].key != k {
        assert ShiftRemove(m, k)[1..] == ShiftRemove(m[1..], k);
      }
      if !Expired(m[0], now) {
        assert Live(m, now)[1..] == Live(m[1..], now);
      }
    }
  }

  lemma {:induction false} LiveLookup<K, V>(m: seq<Entry<K, V>>, k: K, now: int)
    requires Unique(m)
    ensures Lookup(Live(m, now), k) ==
      if Lookup(m, k).Some? && !Expired(Lookup(m, k).value, now) then Lookup(m, k) else None
  {
    if m != [] {
      SliceUnique(m, 1);
      LiveLookup(m[1..], k, now);
      if m[0].key == k {
        assert Keys(m)[0] == k && forall j :: 0 <= j < |m[1..]| ==> Keys(m[1..])[j] == Keys(m)[j + 1];
        LookupKeys(m[1..], k);
      }
      if !Expired(m[0], now) {
        assert Live(m, now)[1..] == Live(m[1..], now);
      }
    }
  }

  /** What is live now is what is live now among what was live before. */
  lemma {:induction false} LiveLater<K, V>(m: seq<Entry<K, V>>, t: int, now: int)
    requires t <= now
    ensures Live(Live(m, t), now) == Live(m, now)
  {
    if m != [] {
      LiveLater(m[1..], t, now);
      if !Expired(m[0], t) {
        assert Live(m, t)[1..] == Live(m[1..], t);
      }
    }
  }

  lemma {:induction false} LiveTrimmed<K, V>(m: seq<Entry<K, V>>, now: int)
    ensures Live(Trimmed(m, now), now) == Live(m, now)
  {
    if m != [] && Expired(m[0], now) {
      LiveTrimmed(m[1..], now);
    }
  }

  /** `Trimmed` drops the longest expired stretch at the old end, and nothing else. */
  lemma {:induction false} TrimmedIsSuffix<K, V>(m: seq<Entry<K, V>>, now: int) returns (n: nat)
    ensures n <= |m| && Trimmed(m, now) == m[n..]
    ensures forall i :: 0 <= i < n ==> Expired(m[i], now)
    ensures n < |m| ==> !Expired(m[n], now)
  {
    if m != [] && Expired(m[0], now) {
      var rest := TrimmedIsSuffix(m[1..], now);
      n := rest + 1;
      assert m[1..][rest..] == m[n..];
      forall i | 0 <= i < n
        ensures Expired(m[i], now)
      {
        assert i > 0 ==> m[i] == m[1..][i - 1];
      }
    } else {
      n := 0;
    }
  }

  lemma {:induction false} AllLive<K, V>(m: seq<Entry<K, V>>, now: int)
    ensures (forall i :: 0 <= i < |m| ==> !Expired(m[i], now)) <==> Live(m, now) == m
    ensures Live(m, now) == m <==> |Live(m, now)| == |m|
  {
    if m != [] {
      AllLive(m[1..], now);
      assert forall i :: 0 < i < |m| ==> m[i] == m[1..][i - 1];
      assert forall i :: 0 <= i < |m[1..]| ==> m[1..][i] == m[i + 1];
      assert !Expired(m[0], now) ==> Live(m, now)[1..] == Live(m[1..], now);
    }
  }

  /** In time order, trimming the old end leaves exactly the live entries. */
  lemma TrimmedSorted<K, V>(m: seq<Entry<K, V>>, now: int)
    requires Sorted(m)
    ensures Trimmed(m, now) == Live(m, now)
  {
    var n := TrimmedIsSuffix(m, now);
    LiveTrimmed(m, now);
    AllLive(Trimmed(m, now), now);
  }
}
