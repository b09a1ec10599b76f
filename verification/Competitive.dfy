/**
 How many misses LRU can make, compared with any other demand-loading cache. A client reads through the cache:
 it calls `get`, and on a miss loads the value and calls `put`.
 */
module Competitive {
  import opened Recency
  import opened Subsequences
  import opened LruList
  import opened Wrappers
  import Caches = LruCache

  // ---------- LRU under read-through ----------

  /** The key list after reading `x` through a cache of `cap` keys. */
  function Read<K(==)>(keys: seq<K>, x: K, cap: nat): seq<K> {
    Take(Touch(keys, x), cap)
  }

  function ReadAll<K(==)>(keys: seq<K>, requests: seq<K>, cap: nat): seq<K>
    decreases |requests|
  {
    if requests == [] then keys else ReadAll(Read(keys, requests[0], cap), requests[1..], cap)
  }

  function Misses<K(==)>(keys: seq<K>, requests: seq<K>, cap: nat): (r: nat)
    decreases |requests|
  {
    if requests == [] then 0
    else (if requests[0] in keys then 0 else 1) + Misses(Read(keys, requests[0], cap), requests[1..], cap)
  }

  /** One read by a client: `get`, then `put` on a miss. */
  function Served<K(==), V>(s: Lru<K, V>, x: K, loaded: V): Lru<K, V> {
    if Find(s.list, x).Some? then Apply(s, Get(x)) else Apply(Apply(s, Get(x)), Put(x, loaded))
  }

  /** It acts on the key list of `LruList` as `Read`. */
  lemma ReadThrough<K, V>(s: Lru<K, V>, x: K, loaded: V)
    requires Proper(s)
    ensures var r := Served(s, x, loaded);
      && (Find(s.list, x).Some? <==> x in Keys(s.list))
      && Proper(r) && r.cap == s.cap
      && Keys(r.list) == Read(Keys(s.list), x, s.cap)
  {
    ApplyKeys(s, Get(x));
    ApplyKeys(Apply(s, Get(x)), Put(x, loaded));
  }

  /** A client that reads each requested key through the cache, loading what is missing; with its number of misses. */
  function Client<K(==), V>(s: Lru<K, V>, requests: seq<K>, load: K -> V): (Lru<K, V>, nat)
    decreases |requests|
  {
    if requests == [] then (s, 0)
    else
      var x := requests[0];
      var (end, misses) := Client(Served(s, x, load(x)), requests[1..], load);
      (end, misses + if Find(s.list, x).Some? then 0 else 1)
  }

  /** The client's run on `LruList` is the run of key lists that the bounds below are about. */
  lemma {:induction false} ClientIsReadAll<K, V>(s: Lru<K, V>, requests: seq<K>, load: K -> V)
    requires Proper(s)
    ensures var (end, misses) := Client(s, requests, load);
      && Keys(end.list) == ReadAll(Keys(s.list), requests, s.cap)
      && misses == Misses(Keys(s.list), requests, s.cap)
    decreases |requests|
  {
    if requests != [] {
      var x := requests[0];
      ReadThrough(s, x, load(x));
      ClientIsReadAll(Served(s, x, load(x)), requests[1..], load);
    }
  }

  /** The operations the client issues after a past. */
  function Issued<K(==), V>(cap: nat, past: seq<Op<K, V>>, requests: seq<K>, load: K -> V): seq<Op<K, V>>
    decreases |requests|
  {
    if requests == [] then []
    else
      var ops := Asked(Run(cap, past), requests[0], load(requests[0]));
      ops + Issued(cap, past + ops, requests[1..], load)
  }

  function Asked<K(==), V>(s: Lru<K, V>, x: K, loaded: V): seq<Op<K, V>> {
    if Find(s.list, x).Some? then [Get(x)] else [Get(x), Put(x, loaded)]
  }

  lemma AskedIsServed<K, V>(cap: nat, past: seq<Op<K, V>>, x: K, loaded: V)
    ensures Run(cap, past + Asked(Run(cap, past), x, loaded)) == Served(Run(cap, past), x, loaded)
  {
    var one, two := past + [Get(x)], past + [Get(x), Put(x, loaded)];
    assert one[..|past|] == past && two[..|past| + 1] == one;
  }

  /** The client's run is a run of operations such as `LruCache.Replay` makes. */
  lemma {:induction false} ClientIsRun<K, V>(cap: nat, past: seq<Op<K, V>>, requests: seq<K>, load: K -> V)
    ensures Run(cap, past + Issued(cap, past, requests, load)) == Client(Run(cap, past), requests, load).0
    decreases |requests|
  {
    if requests == [] {
      assert past + [] == past;
    } else {
      var x := requests[0];
      var ops := Asked(Run(cap, past), x, load(x));
      AskedIsServed(cap, past, x, load(x));
      ClientIsRun(cap, past + ops, requests[1..], load);
      Associative(past, ops, Issued(cap, past + ops, requests[1..], load));
    }
  }

  // ---------- any demand-loading cache ----------

  /**
   `contents[i]` is what some demand-loading cache of `cap` keys holds before request `i`. It may evict whatever it
   likes, with knowledge of the future or not, but brings in only the requested key, and holds that one right after the
   request.
   */
  ghost predicate Serves<K>(contents: seq<set<K>>, requests: seq<K>, cap: nat) {
    && |contents| == |requests| + 1
    && (forall i :: 0 <= i < |contents| ==> |contents[i]| <= cap)
    && (forall i :: 0 <= i < |requests| ==>
          requests[i] in contents[i + 1] && contents[i + 1] <= contents[i] + {requests[i]})
  }

  function OtherMisses<K>(contents: seq<set<K>>, requests: seq<K>): (r: nat)
    requires |contents| == |requests| + 1
  {
    if requests == [] then 0
    else (if requests[0] in contents[0] then 0 else 1) + OtherMisses(contents[1..], requests[1..])
  }

  // ---------- what the misses count ----------

  /** The misses are the requests for keys that were not held before them. */
  lemma {:induction false} OtherMissesCount<K>(contents: seq<set<K>>, requests: seq<K>, cap: nat)
    requires Serves(contents, requests, cap)
    ensures OtherMisses(contents, requests) == |Missed(contents, requests)|
  {
    if requests != [] {
      var n := |requests| - 1;
      OtherMissesConcat(contents, requests, n, cap);
      OtherMissesCount(contents[..n + 1], requests[..n], cap);
      MissedLast(contents, requests);
      OneRequest(contents[n..], requests[n..]);
    }
  }

  function Missed<K>(contents: seq<set<K>>, requests: seq<K>): (r: set<nat>)
    requires |contents| == |requests| + 1
  {
    set i: nat | i < |requests| && requests[i] !in contents[i]
  }

  lemma MissedLast<K>(contents: seq<set<K>>, requests: seq<K>)
    requires |contents| == |requests| + 1 && requests != []
    ensures var n := |requests| - 1;
      |Missed(contents, requests)| ==
        |Missed(contents[..n + 1], requests[..n])| + if requests[n] in contents[n] then 0 else 1
  {
    var n := |requests| - 1;
    var earlier := Missed(contents[..n + 1], requests[..n]);
    assert Missed(contents, requests) == earlier + if requests[n] in contents[n] then {} else {n};
  }

  lemma OneRequest<K>(contents: seq<set<K>>, requests: seq<K>)
    requires |requests| == 1 && |contents| == 2
    ensures OtherMisses(contents, requests) == if requests[0] in contents[0] then 0 else 1
  {
    assert OtherMisses(contents[1..], requests[1..]) == 0;
  }

  /** The key sets LRU goes through. */
  function Held<K>(keys: seq<K>, requests: seq<K>, cap: nat): (r: seq<set<K>>)
    ensures |r| == |requests| + 1 && r[0] == Elements(keys)
    decreases |requests|
  {
    [Elements(keys)] + if requests == [] then [] else Held(Read(keys, requests[0], cap), requests[1..], cap)
  }

  /** LRU is itself one of the caches it is compared with, and its misses are counted alike. */
  lemma {:induction false} LruServes<K>(keys: seq<K>, requests: seq<K>, cap: nat)
    requires Distinct(keys) && |keys| <= cap && cap >= 1
    ensures Serves(Held(keys, requests, cap), requests, cap)
    ensures OtherMisses(Held(keys, requests, cap), requests) == Misses(keys, requests, cap)
    decreases |requests|
  {
    DistinctCount(keys);
    if requests != [] {
      var x := requests[0];
      var next := Read(keys, x, cap);
      TouchDistinct(keys, x);
      WithoutMembers(keys, x);
      LruServes(next, requests[1..], cap);
      assert next[0] == x;
      ServesCons(Elements(keys), Held(next, requests[1..], cap), requests, cap);
    }
  }

  lemma ServesCons<K>(first: set<K>, rest: seq<set<K>>, requests: seq<K>, cap: nat)
    requires requests != [] && Serves(rest, requests[1..], cap) && |first| <= cap
    requires requests[0] in rest[0] && rest[0] <= first + {requests[0]}
    ensures Serves([first] + rest, requests, cap)
    ensures OtherMisses([first] + rest, requests) ==
      (if requests[0] in first then 0 else 1) + OtherMisses(rest, requests[1..])
  {
    var all := [first] + rest;
    assert all[1..] == rest;
    forall i | 0 <= i < |requests|
      ensures requests[i] in all[i + 1] && all[i + 1] <= all[i] + {requests[i]}
    {
      if i > 0 {
        assert requests[i] == requests[1..][i - 1] && all[i] == rest[i - 1] && all[i + 1] == rest[i];
      }
    }
    forall i | 0 <= i < |all|
      ensures |all[i]| <= cap
    {
      assert i > 0 ==> all[i] == rest[i - 1];
    }
  }

  // ---------- a stretch without k misses ----------

  /** The keys of `recent` fill the front of the list. */
  ghost predicate OnTop<K>(keys: seq<K>, recent: set<K>) {
    && Distinct(keys)
    && |recent| <= |keys|
    && Elements(keys[..|recent|]) == recent
  }

  /** Touching `x` puts it before the keys on top, without a second copy of it. */
  lemma TouchTop<K>(top: seq<K>, recent: set<K>, x: K)
    requires Distinct(top) && Elements(top) == recent
    ensures Elements(Touch(top, x)) == recent + {x}
    ensures |Touch(top, x)| == |recent + {x}|
  {
    TouchDistinct(top, x);
    WithoutMembers(top, x);
    assert Elements(Without(top, x)) == recent - {x} by {
      assert forall y :: y in Elements(Without(top, x)) <==> y in Elements(top) && y != x;
    }
    assert Elements(Touch(top, x)) == {x} + Elements(Without(top, x));
    DistinctCount(Touch(top, x));
  }

  /** Touching a list touches its top part, and leaves that on top. */
  lemma TouchKeepsTop<K>(keys: seq<K>, n: nat, x: K)
    requires n <= |keys|
    ensures Touch(keys[..n], x) <= Touch(keys, x)
  {
    assert keys == keys[..n] + keys[n..];
    WithoutConcat(keys[..n], keys[n..], x);
    assert Touch(keys, x) == Touch(keys[..n], x) + Without(keys[n..], x);
  }

  lemma OnTopRead<K>(keys: seq<K>, recent: set<K>, x: K, cap: nat)
    requires OnTop(keys, recent) && |keys| <= cap && |recent + {x}| <= cap
    ensures OnTop(Read(keys, x, cap), recent + {x}) && |Read(keys, x, cap)| <= cap
  {
    var n := |recent|;
    TouchDistinct(keys, x);
    TouchKeepsTop(keys, n, x);
    TouchTop(keys[..n], recent, x);
    var front := Touch(keys[..n], x);
    assert Read(keys, x, cap)[..|front|] == front;
  }

  lemma OnTopMember<K>(keys: seq<K>, recent: set<K>, x: K)
    requires OnTop(keys, recent) && x in recent
    ensures x in keys
  {
    assert x in Elements(keys[..|recent|]);
  }

  /** While a stretch requests few enough distinct keys, none of them is evicted, so each misses at most once. */
  lemma {:induction false} FewKeysFewMisses<K>(keys: seq<K>, recent: set<K>, requests: seq<K>, cap: nat)
    requires OnTop(keys, recent) && |keys| <= cap
    requires |recent + Elements(requests)| <= cap
    ensures Misses(keys, requests, cap) <= |recent + Elements(requests)| - |recent|
    decreases |requests|
  {
    if requests == [] {
      assert recent + Elements(requests) == recent;
    } else {
      var x, all := requests[0], recent + Elements(requests);
      assert all == recent + {x} + Elements(requests[1..]) by {
        assert requests == [x] + requests[1..];
      }
      SubsetSize(recent + {x}, all);
      OnTopRead(keys, recent, x, cap);
      FewKeysFewMisses(Read(keys, x, cap), recent + {x}, requests[1..], cap);
      if x in recent {
        OnTopMember(keys, recent, x);
        assert recent + {x} == recent;
      } else {
        assert |recent + {x}| == |recent| + 1;
      }
    }
  }

  lemma SubsetSize<K>(a: set<K>, b: set<K>)
    requires a <= b
    ensures |a| <= |b|
  {
    assert b == a + (b - a);
  }

  /**
   Miss bound: right after an access to `p`, a stretch with `cap` misses or more requests at least `cap` distinct keys
   other than `p`; and one with fewer misses at least as many distinct other keys as it misses.
   */
  lemma MissBound<K>(keys: seq<K>, p: K, requests: seq<K>, cap: nat)
    requires Distinct(keys) && keys != [] && keys[0] == p && |keys| <= cap
    ensures var others := Elements(requests) - {p};
      && (Misses(keys, requests, cap) >= cap ==> |others| >= cap)
      && (Misses(keys, requests, cap) < cap ==> |others| >= Misses(keys, requests, cap))
  {
    var others := Elements(requests) - {p};
    assert {p} + Elements(requests) == {p} + others;
    assert |{p} + others| == 1 + |others|;
    if |others| < cap {
      assert keys[..1] == [p];
      FewKeysFewMisses(keys, {p}, requests, cap);
    }
  }

  // ---------- what the other cache must miss ----------

  /** Every key requested and not held at the start costs a miss. */
  lemma {:induction false} NewKeysMiss<K>(contents: seq<set<K>>, requests: seq<K>, cap: nat)
    requires Serves(contents, requests, cap)
    ensures OtherMisses(contents, requests) >= |Elements(requests) - contents[0]|
  {
    if requests == [] {
      assert Elements(requests) - contents[0] == {};
    } else {
      var x := requests[0];
      ServesTail(contents, requests, cap);
      NewKeysMiss(contents[1..], requests[1..], cap);
      var new0, new1 := Elements(requests) - contents[0], Elements(requests[1..]) - contents[1];
      SubsetSize(new0 - {x}, new1);
      if x in contents[0] {
        assert new0 - {x} == new0;
      }
    }
  }

  lemma ServesTail<K>(contents: seq<set<K>>, requests: seq<K>, cap: nat)
    requires Serves(contents, requests, cap) && requests != []
    ensures Serves(contents[1..], requests[1..], cap)
  {
    forall i | 0 <= i < |requests[1..]|
      ensures requests[1..][i] in contents[1..][i + 1]
        && contents[1..][i + 1] <= contents[1..][i] + {requests[1..][i]}
    {
      assert requests[i + 1] in contents[i + 2] && contents[i + 2] <= contents[i + 1] + {requests[i + 1]};
    }
  }

  /**
   In a stretch after an access to `p`, a demand-loading cache of `h` keys that held `p` misses nearly as often as LRU,
   up to `k - h + 1`.
   */
  lemma StretchBound<K>(keys: seq<K>, p: K, contents: seq<set<K>>, requests: seq<K>, k: nat, h: nat)
    requires Distinct(keys) && keys != [] && keys[0] == p && |keys| <= k
    requires Serves(contents, requests, h) && p in contents[0] && h <= k
    ensures var m := Misses(keys, requests, k);
      OtherMisses(contents, requests) >= (if m < k then m else k) + 1 - h
  {
    MissBound(keys, p, requests, k);
    NewKeysMiss(contents, requests, h);
    var others, held := Elements(requests) - {p}, contents[0] - {p};
    assert |held| == |contents[0]| - 1;
    assert others == (others * held) + (Elements(requests) - contents[0]);
    SubsetSize(others * held, held);
    assert |others| <= |others * held| + |Elements(requests) - contents[0]|;
  }

  // ---------- the whole run ----------

  lemma {:induction false} MissesConcat<K>(keys: seq<K>, a: seq<K>, b: seq<K>, cap: nat)
    ensures Misses(keys, a + b, cap) == Misses(keys, a, cap) + Misses(ReadAll(keys, a, cap), b, cap)
    decreases |a|
  {
    if a == [] {
      assert a + b == b;
    } else {
      MissesConcat(Read(keys, a[0], cap), a[1..], b, cap);
      assert (a + b)[1..] == a[1..] + b;
    }
  }

  lemma {:induction false} OtherMissesConcat<K>(contents: seq<set<K>>, requests: seq<K>, n: nat, cap: nat)
    requires Serves(contents, requests, cap) && n <= |requests|
    ensures Serves(contents[..n + 1], requests[..n], cap) && Serves(contents[n..], requests[n..], cap)
    ensures OtherMisses(contents, requests)
         == OtherMisses(contents[..n + 1], requests[..n]) + OtherMisses(contents[n..], requests[n..])
  {
    if n == 0 {
      assert requests[0..] == requests && contents[0..] == contents;
    } else {
      ServesTail(contents, requests, cap);
      OtherMissesConcat(contents[1..], requests[1..], n - 1, cap);
      assert contents[..n + 1][1..] == contents[1..][..n] && requests[..n][1..] == requests[1..][..n - 1];
      assert contents[1..][n - 1..] == contents[n..] && requests[1..][n - 1..] == requests[n..];
    }
  }

  /** A run with at least `m` misses has a shortest prefix with exactly `m`. */
  lemma {:induction false} PrefixWithMisses<K>(keys: seq<K>, requests: seq<K>, cap: nat, m: nat) returns (n: nat)
    requires Misses(keys, requests, cap) >= m
    ensures n <= |requests| && Misses(keys, requests[..n], cap) == m
    decreases |requests|
  {
    if m == 0 {
      n := 0;
    } else {
      var c := if requests[0] in keys then 0 else 1;
      var rest := PrefixWithMisses(Read(keys, requests[0], cap), requests[1..], cap, m - c);
      n := rest + 1;
      assert requests[..n][1..] == requests[1..][..rest];
    }
  }

  /** The key requested last is in front. */
  lemma {:induction false} LastInFront<K>(keys: seq<K>, requests: seq<K>, cap: nat)
    requires Distinct(keys) && |keys| <= cap && cap >= 1
    ensures Distinct(ReadAll(keys, requests, cap)) && |ReadAll(keys, requests, cap)| <= cap
    ensures requests != [] ==>
      ReadAll(keys, requests, cap) != [] && ReadAll(keys, requests, cap)[0] == requests[|requests| - 1]
    decreases |requests|
  {
    if requests != [] {
      TouchDistinct(keys, requests[0]);
      LastInFront(Read(keys, requests[0], cap), requests[1..], cap);
    }
  }

  lemma Distribute(a: int, b: int, c: int)
    ensures a * (b + c) == a * b + a * c
  {
  }

  lemma Scale(a: nat, b: int, c: int)
    requires b <= c
    ensures a * b <= a * c && b * a <= c * a
  {
  }

  /** The arithmetic of a stretch shorter than a phase. */
  lemma ShortStretch(m: nat, o: nat, k: nat, h: nat)
    requires 1 <= h <= k && o >= m + 1 - h
    ensures (k - h + 1) * m <= k * o + (k - h + 1) * (h - 1)
  {
    var g := k - h + 1;
    if m <= h - 1 {
      Scale(g, m, h - 1);
    } else {
      var d := m - (h - 1);
      Scale(k, d, o);
      Distribute(g, d, h - 1);
      Scale(d, g, k);
    }
  }

  /** The arithmetic of adding one phase of `k` misses, which cost the other cache `o1`. */
  lemma PhaseSum(m: nat, o: nat, m2: nat, o1: nat, o2: nat, k: nat, h: nat)
    requires 1 <= h <= k && o1 >= k - h + 1 && m == k + m2 && o == o1 + o2
    requires (k - h + 1) * m2 <= k * o2 + (k - h + 1) * (h - 1)
    ensures (k - h + 1) * m <= k * o + (k - h + 1) * (h - 1)
  {
    var g := k - h + 1;
    Scale(k, g, o1);
    Distribute(g, k, m2);
    Distribute(k, o1, o2);
  }

  /** The arithmetic of the very first request, which may be a miss for LRU alone. */
  lemma FirstRequest(m: nat, o: nat, m2: nat, o2: nat, k: nat, h: nat)
    requires 1 <= h <= k && m <= 1 + m2 && o2 <= o
    requires (k - h + 1) * m2 <= k * o2 + (k - h + 1) * (h - 1)
    ensures (k - h + 1) * m <= k * o + (k - h + 1) * h
  {
    var g := k - h + 1;
    Scale(g, m, 1 + m2);
    Distribute(g, 1, m2);
    Distribute(g, 1, h - 1);
    Scale(k, o2, o);
  }

  /** Phases of `k` LRU misses, each of which costs the other cache at least `k - h + 1`. */
  lemma {:induction false} PhasesBound<K>(keys: seq<K>, p: K, contents: seq<set<K>>, requests: seq<K>, k: nat, h: nat)
    requires Distinct(keys) && keys != [] && keys[0] == p && |keys| <= k
    requires Serves(contents, requests, h) && p in contents[0] && 1 <= h <= k
    ensures (k - h + 1) * Misses(keys, requests, k) <= k * OtherMisses(contents, requests) + (k - h + 1) * (h - 1)
    decreases |requests|
  {
    var m := Misses(keys, requests, k);
    if m < k {
      StretchBound(keys, p, contents, requests, k, h);
      ShortStretch(m, OtherMisses(contents, requests), k, h);
    } else {
      var n := PrefixWithMisses(keys, requests, k, k);
      var phase, rest := requests[..n], requests[n..];
      assert requests == phase + rest;
      MissesConcat(keys, phase, rest, k);
      OtherMissesConcat(contents, requests, n, h);
      StretchBound(keys, p, contents[..n + 1], phase, k, h);
      LastInFront(keys, phase, k);
      assert requests[n - 1] in contents[n];
      PhasesBound(ReadAll(keys, phase, k), requests[n - 1], contents[n..], rest, k, h);
      PhaseSum(m, OtherMisses(contents, requests), Misses(ReadAll(keys, phase, k), rest, k),
               OtherMisses(contents[..n + 1], phase), OtherMisses(contents[n..], rest), k, h);
    }
  }

  /**
   LRU of `k` keys against any demand-loading cache of `h <= k` keys, on every sequence of requests and from any
   contents:
   misses(LRU) <= k / (k - h + 1) * misses(other) + h.
   */
  lemma LruIsCompetitive<K>(keys: seq<K>, contents: seq<set<K>>, requests: seq<K>, k: nat, h: nat)
    requires Distinct(keys) && |keys| <= k
    requires Serves(contents, requests, h) && 1 <= h <= k
    ensures (k - h + 1) * Misses(keys, requests, k) <= k * OtherMisses(contents, requests) + (k - h + 1) * h
  {
    if requests == [] {
      Scale(k - h + 1, 0, h);
    } else {
      var p := requests[0];
      TouchDistinct(keys, p);
      assert Read(keys, p, k) != [] && Read(keys, p, k)[0] == p && p in contents[1];
      ServesTail(contents, requests, h);
      PhasesBound(Read(keys, p, k), p, contents[1..], requests[1..], k, h);
      FirstRequest(Misses(keys, requests, k), OtherMisses(contents, requests),
                   Misses(Read(keys, p, k), requests[1..], k), OtherMisses(contents[1..], requests[1..]), k, h);
    }
  }

  // ---------- the cache itself ----------

  /** The bound, for the misses of a client that reads through the cache after any past. */
  lemma ClientIsCompetitive<K, V>(cap: nat, past: seq<Op<K, V>>, requests: seq<K>, load: K -> V,
                                  contents: seq<set<K>>, h: nat)
    ensures var s := Run(cap, past);
      Serves(contents, requests, h) && 1 <= h <= s.cap ==>
        (s.cap - h + 1) * Client(s, requests, load).1 <= s.cap * OtherMisses(contents, requests) + (s.cap - h + 1) * h
  {
    var s := Run(cap, past);
    RunProper(cap, past);
    ClientIsReadAll(s, requests, load);
    if Serves(contents, requests, h) && 1 <= h <= s.cap {
      LruIsCompetitive(Keys(s.list), contents, requests, s.cap, h);
    }
  }

  /** Where a client will end that has made some misses and has requests to go. */
  function Ahead<K(==), V>(s: Lru<K, V>, requests: seq<K>, load: K -> V, misses: nat): (Lru<K, V>, nat) {
    var (end, more) := Client(s, requests, load);
    (end, misses + more)
  }

  lemma AheadFirst<K, V>(s: Lru<K, V>, requests: seq<K>, i: nat, load: K -> V, misses: nat)
    requires i < |requests|
    ensures var x := requests[i];
      Ahead(s, requests[i..], load, misses) ==
        Ahead(Served(s, x, load(x)), requests[i + 1..], load, misses + if Find(s.list, x).Some? then 0 else 1)
  {
    assert requests[i..][1..] == requests[i + 1..];
  }

  /** One read of the client. */
  method ReadOne<K(==,0), V(0)>(c: Caches.LruCache<K, V>, x: K, load: K -> V) returns (missed: bool)
    requires c.Valid()
    modifies c, c.head, c.nodes
    ensures c.Valid() && (forall n <- c.nodes :: n in old(c.nodes) || fresh(n))
    ensures var s := Lru(old(c.contents), old(c.maxSize));
      && (missed <==> Find(s.list, x).None?)
      && Lru(c.contents, c.maxSize) == Served(s, x, load(x))
  {
    ghost var before := c.nodes;
    var found := c.Get(x);
    missed := found.None?;
    assert forall i :: 0 <= i < |c.nodes| ==> c.nodes[i] in before;
    if missed {
      c.Put(x, load(x));
    }
  }

  /** The client on the cache itself, nodes and pointers included: its misses are those bounded above. */
  method ReadThroughCache<K(==,0), V(0)>(cap: nat, past: seq<Op<K, V>>, requests: seq<K>, load: K -> V)
      returns (c: Caches.LruCache<K, V>, misses: nat)
    ensures c.Valid() && (Lru(c.contents, c.maxSize), misses) == Client(Run(cap, past), requests, load)
  {
    c := Caches.Replay(cap, past);
    misses := 0;
    ghost var target := Client(Run(cap, past), requests, load);
    for i := 0 to |requests|
      invariant fresh(c) && fresh(c.head) && fresh(c.nodes) && c.Valid()
      invariant Ahead(Lru(c.contents, c.maxSize), requests[i..], load, misses) == target
    {
      ghost var s, before := Lru(c.contents, c.maxSize), c.nodes;
      AheadFirst(s, requests, i, load, misses);
      label start:
      var missed := ReadOne(c, requests[i], load);
      misses := misses + if missed then 1 else 0;
      forall n | 0 <= n < |c.nodes|
        ensures fresh(c.nodes[n])
      {
        assert c.nodes[n] in before || fresh@start(c.nodes[n]);
      }
    }
  }
}
