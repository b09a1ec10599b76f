/**
 The LRU cache as a plain list of pairs, most recently used first, and theorems about whole
 runs of it. `LruCache` is proved to act on its abstract value exactly as this list does.
 */
module LruList {
  import opened Wrappers
  import opened Recency
  import opened Subsequences

  type Pair<K, V> = (K, V)

  datatype Lru<K, V> = Lru(list: seq<Pair<K, V>>, cap: nat)

  datatype Op<K, V> = Put(key: K, value: V) | Get(key: K) | ChangeCapacity(cap: nat)

  function Keys<K, V>(l: seq<Pair<K, V>>): (r: seq<K>)
    ensures |r| == |l|
    ensures forall i :: 0 <= i < |l| ==> r[i] == l[i].0
  {
    seq(|l|, i requires 0 <= i < |l| => l[i].0)
  }

  function Drop<K(==), V>(l: seq<Pair<K, V>>, k: K): (r: seq<Pair<K, V>>)
    ensures |r| <= |l|
  {
    if l == [] then []
    else if l[0].0 == k then Drop(l[1..], k)
    else [l[0]] + Drop(l[1..], k)
  }

  function Find<K(==), V>(l: seq<Pair<K, V>>, k: K): (r: Option<V>)
    ensures r.Some? ==> (k, r.value) in l
    ensures r.None? <==> k !in Keys(l)
  {
    if l == [] then None
    else if l[0].0 == k then assert Keys(l)[0] == k; Some(l[0].1)
    else
      assert Keys(l) == [l[0].0] + Keys(l[1..]);
      Find(l[1..], k)
  }

  function RemoveLru<K, V>(l: seq<Pair<K, V>>): seq<Pair<K, V>> {
    if l == [] then l else l[..|l| - 1]
  }

  function PutList<K(==), V>(l: seq<Pair<K, V>>, k: K, v: V, cap: nat): seq<Pair<K, V>> {
    if Find(l, k).Some? then [(k, v)] + Drop(l, k)
    else if |l| + 1 > cap then RemoveLru([(k, v)] + l)
    else [(k, v)] + l
  }

  function GetList<K(==), V>(l: seq<Pair<K, V>>, k: K): seq<Pair<K, V>> {
    match Find(l, k)
    case None => l
    case Some(v) => [(k, v)] + Drop(l, k)
  }

  function Apply<K(==), V>(s: Lru<K, V>, op: Op<K, V>): Lru<K, V> {
    match op
    case Put(k, v) => s.(list := PutList(s.list, k, v, s.cap))
    case Get(k) => s.(list := GetList(s.list, k))
    case ChangeCapacity(c) => Lru(Take(s.list, c), c)
  }

  function Run<K(==), V>(cap: nat, ops: seq<Op<K, V>>): Lru<K, V> {
    if ops == [] then Lru([], cap)
    else Apply(Run(cap, ops[..|ops| - 1]), ops[|ops| - 1])
  }

  /** Distinct keys, and never more pairs than the capacity. */
  ghost predicate Proper<K, V>(s: Lru<K, V>) {
    Distinct(Keys(s.list)) && |s.list| <= s.cap
  }

  // ---------- one step ----------

  lemma {:induction false} KeysDrop<K, V>(l: seq<Pair<K, V>>, k: K)
    ensures Keys(Drop(l, k)) == Without(Keys(l), k)
  {
    if l != [] {
      KeysDrop(l[1..], k);
      assert Keys(l) == [l[0].0] + Keys(l[1..]);
      if l[0].0 != k {
        assert Keys(Drop(l, k)) == [l[0].0] + Keys(Drop(l[1..], k));
      }
    }
  }

  lemma KeysCons<K, V>(p: Pair<K, V>, l: seq<Pair<K, V>>)
    ensures Keys([p] + l) == [p.0] + Keys(l)
  {
  }

  lemma KeysTake<K, V>(l: seq<Pair<K, V>>, n: nat)
    requires n <= |l|
    ensures Keys(l[..n]) == Keys(l)[..n]
  {
  }

  lemma PutKeys<K, V>(l: seq<Pair<K, V>>, k: K, v: V, cap: nat)
    requires Distinct(Keys(l)) && |l| <= cap
    ensures Keys(PutList(l, k, v, cap)) == Take(Touch(Keys(l), k), cap)
  {
    KeysDrop(l, k);
    TouchDistinct(Keys(l), k);
    KeysCons((k, v), l);
    KeysCons((k, v), Drop(l, k));
    if k !in Keys(l) {
      WithoutAbsent(Keys(l), k);
      KeysTake([(k, v)] + l, |l|);
    }
  }

  lemma GetKeys<K, V>(l: seq<Pair<K, V>>, k: K, cap: nat)
    requires Distinct(Keys(l)) && |l| <= cap
    ensures Keys(GetList(l, k)) == if k in Keys(l) then Take(Touch(Keys(l), k), cap) else Keys(l)
  {
    if k in Keys(l) {
      KeysDrop(l, k);
      TouchDistinct(Keys(l), k);
      KeysCons((k, Find(l, k).value), Drop(l, k));
    }
  }

  /** Every operation that touches a key moves it to the front of the key list and cuts at the capacity. */
  lemma ApplyKeys<K, V>(s: Lru<K, V>, op: Op<K, V>)
    requires Proper(s)
    ensures Proper(Apply(s, op))
    ensures Keys(Apply(s, op).list) ==
      match op
      case Put(k, _) => Take(Touch(Keys(s.list), k), s.cap)
      case Get(k) => if k in Keys(s.list) then Take(Touch(Keys(s.list), k), s.cap) else Keys(s.list)
      case ChangeCapacity(c) => Take(Keys(s.list), c)
    ensures Apply(s, op).cap == if op.ChangeCapacity? then op.cap else s.cap
  {
    match op
    case Put(k, v) =>
      PutKeys(s.list, k, v, s.cap);
      TouchDistinct(Keys(s.list), k);
    case Get(k) =>
      GetKeys(s.list, k, s.cap);
      TouchDistinct(Keys(s.list), k);
    case ChangeCapacity(c) =>
      KeysTake(s.list, |Take(s.list, c)|);
  }

  /** In every run, whatever the capacity changes, keys are distinct and the length is at most the capacity. */
  lemma {:induction false} RunProper<K, V>(cap: nat, ops: seq<Op<K, V>>)
    ensures Proper(Run(cap, ops))
  {
    if ops != [] {
      RunProper(cap, ops[..|ops| - 1]);
      ApplyKeys(Run(cap, ops[..|ops| - 1]), ops[|ops| - 1]);
    }
  }

  lemma FindCons<K, V>(p: Pair<K, V>, l: seq<Pair<K, V>>, k: K)
    ensures Find([p] + l, k) == if p.0 == k then Some(p.1) else Find(l, k)
  {
    assert ([p] + l)[1..] == l;
  }

  lemma {:induction false} FindDrop<K, V>(l: seq<Pair<K, V>>, k: K, x: K)
    requires x != k
    ensures Find(Drop(l, k), x) == Find(l, x)
  {
    if l != [] {
      FindDrop(l[1..], k, x);
      if l[0].0 != k {
        assert Drop(l, k)[1..] == Drop(l[1..], k);
      }
    }
  }

  /** With distinct keys, `Find` returns the value of any pair in the list. */
  lemma {:induction false} FindAt<K, V>(l: seq<Pair<K, V>>, i: nat)
    requires Distinct(Keys(l)) && i < |l|
    ensures Find(l, l[i].0) == Some(l[i].1)
  {
    if i > 0 {
      assert Keys(l)[0] != Keys(l)[i];
      assert Keys(l[1..]) == Keys(l)[1..];
      FindAt(l[1..], i - 1);
    }
  }

  lemma {:induction false} FindConcat<K, V>(a: seq<Pair<K, V>>, b: seq<Pair<K, V>>, k: K)
    ensures Find(a + b, k) == if Find(a, k).Some? then Find(a, k) else Find(b, k)
  {
    if a == [] {
      assert a + b == b;
    } else {
      assert (a + b)[1..] == a[1..] + b;
      FindConcat(a[1..], b, k);
    }
  }

  lemma FindPrefix<K, V>(l: seq<Pair<K, V>>, n: nat, k: K)
    requires n <= |l|
    ensures Find(l[..n], k) == Find(l, k) || Find(l[..n], k) == None
  {
    FindConcat(l[..n], l[n..], k);
    assert l == l[..n] + l[n..];
  }

  // ---------- recency decided by the history ----------

  /** Capacity changes left out. */
  ghost predicate FixedCapacity<K, V>(ops: seq<Op<K, V>>) {
    forall n :: 0 <= n < |ops| ==> !ops[n].ChangeCapacity?
  }

  /**
   The keys touched, in order: by every `put`, and by a `get` exactly when fewer than `cap` other keys
   were touched since the latest touch. No cache is consulted.
   */
  function Touches<K(==), V>(cap: nat, ops: seq<Op<K, V>>): seq<K> {
    if ops == [] then []
    else
      var past, last := Touches(cap, ops[..|ops| - 1]), ops[|ops| - 1];
      match last
      case Put(k, _) => past + [k]
      case Get(k) => if Recent(past, k, cap) then past + [k] else past
      case ChangeCapacity(_) => past
  }

  function LatestPut<K(==), V>(ops: seq<Op<K, V>>, k: K): Option<V> {
    if ops == [] then None
    else
      var last := ops[|ops| - 1];
      if last.Put? && last.key == k then Some(last.value) else LatestPut(ops[..|ops| - 1], k)
  }

  lemma {:induction false} KeysByHistory<K, V>(cap: nat, ops: seq<Op<K, V>>)
    requires FixedCapacity(ops)
    ensures Run(cap, ops).cap == cap
    ensures Keys(Run(cap, ops).list) == Take(Stack(Touches(cap, ops)), cap)
  {
    if ops != [] {
      var init, last := ops[..|ops| - 1], ops[|ops| - 1];
      KeysByHistory(cap, init);
      RunProper(cap, init);
      ApplyKeys(Run(cap, init), last);
      var past := Touches(cap, init);
      StackMembers(past, cap, last.key);
      StackCut(past, last.key, cap);
    }
  }

  /** One operation gives a resident key the value just put, or leaves the one it had. */
  lemma ApplyFind<K, V>(s: Lru<K, V>, op: Op<K, V>, k: K)
    ensures Find(Apply(s, op).list, k).Some? ==>
      Find(Apply(s, op).list, k) == if op.Put? && op.key == k then Some(op.value) else Find(s.list, k)
  {
    var l := s.list;
    match op
    case ChangeCapacity(c) =>
      FindPrefix(l, |Take(l, c)|, k);
    case Get(x) =>
      if Find(l, x).Some? {
        FindCons((x, Find(l, x).value), Drop(l, x), k);
        if x != k {
          FindDrop(l, x, k);
        }
      }
    case Put(x, v) =>
      FindCons((x, v), l, k);
      FindCons((x, v), Drop(l, x), k);
      if x != k {
        FindDrop(l, x, k);
      }
      FindPrefix([(x, v)] + l, |l|, k);
  }

  lemma {:induction false} ValuesByHistory<K, V>(cap: nat, ops: seq<Op<K, V>>, k: K)
    ensures Find(Run(cap, ops).list, k).Some? ==> Find(Run(cap, ops).list, k) == LatestPut(ops, k)
  {
    if ops != [] {
      ValuesByHistory(cap, ops[..|ops| - 1], k);
      ApplyFind(Run(cap, ops[..|ops| - 1]), ops[|ops| - 1], k);
    }
  }

  /**
   Recency characterisation: after any run at a fixed capacity, `get(k)` finds a value exactly when `k` was
   touched and fewer than `cap` other keys were touched since, and the value is the latest one put.
   */
  lemma GetByHistory<K, V>(cap: nat, ops: seq<Op<K, V>>, k: K)
    requires FixedCapacity(ops)
    ensures Find(Run(cap, ops).list, k) == if Recent(Touches(cap, ops), k, cap) then LatestPut(ops, k) else None
    ensures Recent(Touches(cap, ops), k, cap) ==> LatestPut(ops, k).Some?
  {
    KeysByHistory(cap, ops);
    StackMembers(Touches(cap, ops), cap, k);
    ValuesByHistory(cap, ops, k);
  }

  /** Place `i` of the list holds the key since whose latest touch exactly `i` other keys were touched. */
  lemma PlaceByHistory<K, V>(cap: nat, ops: seq<Op<K, V>>, i: nat, k: K)
    requires FixedCapacity(ops)
    ensures var l, touches := Run(cap, ops).list, Touches(cap, ops);
      (i < |l| && l[i].0 == k) <==> (k in touches && |Since(touches, k)| == i && i < cap)
  {
    KeysByHistory(cap, ops);
    StackPlaces(Touches(cap, ops), cap, i, k);
  }

  // ---------- inclusion across capacities ----------

  lemma {:induction false} SubDrop<K, V>(a: seq<Pair<K, V>>, b: seq<Pair<K, V>>, k: K)
    requires Sub(a, b)
    ensures Sub(Drop(a, k), Drop(b, k))
  {
    if a != [] {
      if a[0] == b[0] {
        SubDrop(a[1..], b[1..], k);
        if a[0].0 != k {
          assert Drop(a, k)[1..] == Drop(a[1..], k) && Drop(b, k)[1..] == Drop(b[1..], k);
        }
      } else {
        SubDrop(a, b[1..], k);
        if b[0].0 != k {
          assert Drop(b, k)[1..] == Drop(b[1..], k);
          SubCons(Drop(a, k), b[0], Drop(b[1..], k));
        }
      }
    }
  }

  /** A hit in the smaller cache is a hit in the larger one with the same value. */
  lemma SubFind<K, V>(a: seq<Pair<K, V>>, b: seq<Pair<K, V>>, k: K)
    requires Sub(a, b) && Distinct(Keys(b))
    ensures Find(a, k).Some? ==> Find(b, k) == Find(a, k)
  {
    if Find(a, k).Some? {
      var p := (k, Find(a, k).value);
      SubMember(a, b, p);
      var i :| 0 <= i < |b| && b[i] == p;
      FindAt(b, i);
    }
  }

  lemma DropAbsent<K, V>(l: seq<Pair<K, V>>, k: K)
    requires k !in Keys(l)
    ensures Drop(l, k) == l
  {
    if l != [] {
      assert Keys(l) == [l[0].0] + Keys(l[1..]);
      DropAbsent(l[1..], k);
    }
  }

  ghost predicate Included<K, V>(small: Lru<K, V>, large: Lru<K, V>) {
    && Proper(small) && Proper(large)
    && small.cap <= large.cap
    && Sub(small.list, large.list)
    && |large.list| - |small.list| <= large.cap - small.cap
  }

  /** Both hold the key: both move it to the front. */
  lemma PutSubBoth<K, V>(a: seq<Pair<K, V>>, b: seq<Pair<K, V>>, p: Pair<K, V>)
    requires Sub(a, b)
    ensures Sub([p] + Drop(a, p.0), [p] + Drop(b, p.0))
  {
    SubDrop(a, b, p.0);
    SubCons(Drop(a, p.0), p, Drop(b, p.0));
  }

  /** Only the larger holds the key: the smaller inserts it and may evict. */
  lemma PutSubLarger<K, V>(a: seq<Pair<K, V>>, b: seq<Pair<K, V>>, p: Pair<K, V>)
    requires Sub(a, b) && p.0 !in Keys(a)
    ensures Sub([p] + a, [p] + Drop(b, p.0)) && Sub(RemoveLru([p] + a), [p] + Drop(b, p.0))
  {
    DropAbsent(a, p.0);
    PutSubBoth(a, b, p);
    SubShorten([p] + a, [p] + Drop(b, p.0));
  }

  /** Neither holds the key: if the larger evicts then so does the smaller. */
  lemma PutSubNeither<K, V>(a: seq<Pair<K, V>>, b: seq<Pair<K, V>>, p: Pair<K, V>)
    requires Sub(a, b)
    ensures Sub([p] + a, [p] + b) && Sub(RemoveLru([p] + a), [p] + b)
    ensures Sub(RemoveLru([p] + a), RemoveLru([p] + b))
  {
    SubCons(a, p, b);
    SubInit([p] + a, [p] + b);
    SubShorten([p] + a, [p] + b);
  }

  lemma PutSub<K, V>(a: seq<Pair<K, V>>, b: seq<Pair<K, V>>, c1: nat, c2: nat, k: K, v: V)
    requires Sub(a, b) && Distinct(Keys(a)) && Distinct(Keys(b))
    requires |a| <= c1 <= c2 && |b| <= c2 && |b| - |a| <= c2 - c1
    ensures Sub(PutList(a, k, v, c1), PutList(b, k, v, c2))
    ensures |PutList(b, k, v, c2)| - |PutList(a, k, v, c1)| <= c2 - c1
  {
    SubFind(a, b, k);
    DropLength(a, k);
    DropLength(b, k);
    if Find(a, k).Some? {
      PutSubBoth(a, b, (k, v));
    } else if Find(b, k).Some? {
      PutSubLarger(a, b, (k, v));
    } else {
      PutSubNeither(a, b, (k, v));
    }
  }

  lemma GetSub<K, V>(a: seq<Pair<K, V>>, b: seq<Pair<K, V>>, k: K)
    requires Sub(a, b) && Distinct(Keys(a)) && Distinct(Keys(b))
    ensures Sub(GetList(a, k), GetList(b, k))
    ensures |GetList(a, k)| == |a| && |GetList(b, k)| == |b|
  {
    SubFind(a, b, k);
    SubDrop(a, b, k);
    DropLength(a, k);
    DropLength(b, k);
    if Find(a, k).None? {
      DropAbsent(a, k);
    }
    if Find(b, k).Some? {
      SubCons(Drop(a, k), (k, Find(b, k).value), Drop(b, k));
    }
  }

  lemma DropLength<K, V>(l: seq<Pair<K, V>>, k: K)
    requires Distinct(Keys(l))
    ensures |Drop(l, k)| == if Find(l, k).Some? then |l| - 1 else |l|
  {
    KeysDrop(l, k);
    WithoutDistinct(Keys(l), k);
  }

  lemma IncludedStep<K, V>(small: Lru<K, V>, large: Lru<K, V>, op: Op<K, V>)
    requires Included(small, large) && !op.ChangeCapacity?
    ensures Included(Apply(small, op), Apply(large, op))
  {
    ApplyKeys(small, op);
    ApplyKeys(large, op);
    match op
    case Put(k, v) => PutSub(small.list, large.list, small.cap, large.cap, k, v);
    case Get(k) => GetSub(small.list, large.list, k);
  }

  /**
   Inclusion: of two caches given the same `put`s and `get`s, the smaller one's list is always a subsequence
   of the larger one's, so whatever the smaller finds the larger finds too, with the same value.
   */
  lemma {:induction false} Inclusion<K, V>(c1: nat, c2: nat, ops: seq<Op<K, V>>)
    requires c1 <= c2 && FixedCapacity(ops)
    ensures Included(Run(c1, ops), Run(c2, ops))
    ensures forall k :: Find(Run(c1, ops).list, k).Some? ==> Find(Run(c2, ops).list, k) == Find(Run(c1, ops).list, k)
  {
    if ops != [] {
      Inclusion(c1, c2, ops[..|ops| - 1]);
      RunProper(c1, ops[..|ops| - 1]);
      KeysByHistory(c1, ops);
      KeysByHistory(c2, ops);
      IncludedStep(Run(c1, ops[..|ops| - 1]), Run(c2, ops[..|ops| - 1]), ops[|ops| - 1]);
    }
    forall k
      ensures Find(Run(c1, ops).list, k).Some? ==> Find(Run(c2, ops).list, k) == Find(Run(c1, ops).list, k)
    {
      SubFind(Run(c1, ops).list, Run(c2, ops).list, k);
    }
  }
}
