/**
 Move-to-front order: the order in which keys were last touched, most recent first.
 Both caches keep a list in this order cut at their capacity.
 */
module Recency {

  /** `s` without the elements equal to `x`, in order. */
  function Without<K(==)>(s: seq<K>, x: K): (r: seq<K>)
    ensures |r| <= |s|
  {
    if s == [] then []
    else if s[0] == x then Without(s[1..], x)
    else [s[0]] + Without(s[1..], x)
  }

  function Touch<K(==)>(s: seq<K>, x: K): seq<K> {
    [x] + Without(s, x)
  }

  /** The first `n` elements, or all if there are fewer. */
  function Take<K>(s: seq<K>, n: nat): (r: seq<K>)
    ensures |r| <= n && r <= s
  {
    if |s| <= n then s else s[..n]
  }

  ghost predicate Distinct<K>(s: seq<K>) {
    forall i, j :: 0 <= i < j < |s| ==> s[i] != s[j]
  }

  /** All keys of a history of touches, the latest touched first. */
  function Stack<K(==)>(touches: seq<K>): (r: seq<K>) {
    if touches == [] then []
    else Touch(Stack(touches[..|touches| - 1]), touches[|touches| - 1])
  }

  /** The keys touched after the latest touch of `k`. */
  function Since<K(==)>(touches: seq<K>, k: K): (r: set<K>) {
    if touches == [] || touches[|touches| - 1] == k then {}
    else Since(touches[..|touches| - 1], k) + {touches[|touches| - 1]}
  }

  /** The elements in front of `k`. */
  function Before<K(==)>(s: seq<K>, k: K): (r: set<K>) {
    if s == [] || s[0] == k then {}
    else {s[0]} + Before(s[1..], k)
  }

  /** Decided by the history alone: `k` was touched, and fewer than `cap` other keys have been since. */
  predicate Recent<K(==)>(touches: seq<K>, k: K, cap: nat) {
    k in touches && |Since(touches, k)| < cap
  }

  // ---------- Without ----------

  lemma {:induction false} WithoutMembers<K>(s: seq<K>, x: K)
    ensures forall y :: y in Without(s, x) <==> y in s && y != x
  {
    if s != [] {
      WithoutMembers(s[1..], x);
      assert s == [s[0]] + s[1..];
    }
  }

  lemma WithoutCons<K>(y: K, s: seq<K>, x: K)
    ensures Without([y] + s, x) == (if y == x then [] else [y]) + Without(s, x)
  {
    assert ([y] + s)[1..] == s;
  }

  lemma {:induction false} WithoutConcat<K>(a: seq<K>, b: seq<K>, x: K)
    ensures Without(a + b, x) == Without(a, x) + Without(b, x)
  {
    if a == [] {
      assert a + b == b;
    } else {
      WithoutConcat(a[1..], b, x);
      WithoutCons(a[0], a[1..], x);
      WithoutCons(a[0], a[1..] + b, x);
      assert a == [a[0]] + a[1..] && a + b == [a[0]] + (a[1..] + b);
    }
  }

  lemma {:induction false} WithoutAbsent<K>(s: seq<K>, x: K)
    requires x !in s
    ensures Without(s, x) == s
  {
    if s != [] {
      WithoutAbsent(s[1..], x);
    }
  }

  /** Among distinct elements, `Without` cuts out one place. */
  lemma WithoutAt<K>(s: seq<K>, i: nat)
    requires i < |s| && Distinct(s)
    ensures Without(s, s[i]) == s[..i] + s[i + 1..]
  {
    assert s == s[..i] + s[i..];
    WithoutConcat(s[..i], s[i..], s[i]);
    assert s[i..][0] == s[i] && s[i..][1..] == s[i + 1..];
    WithoutAbsent(s[..i], s[i]);
    WithoutAbsent(s[i + 1..], s[i]);
  }

  lemma WithoutDistinct<K>(s: seq<K>, x: K)
    requires Distinct(s)
    ensures Distinct(Without(s, x)) && x !in Without(s, x)
    ensures |Without(s, x)| == if x in s then |s| - 1 else |s|
  {
    if x in s {
      var i :| 0 <= i < |s| && s[i] == x;
      WithoutAt(s, i);
    } else {
      WithoutAbsent(s, x);
    }
    WithoutMembers(s, x);
  }

  lemma TouchDistinct<K>(s: seq<K>, x: K)
    requires Distinct(s)
    ensures Distinct(Touch(s, x))
    ensures |Touch(s, x)| == if x in s then |s| else |s| + 1
  {
    WithoutDistinct(s, x);
  }

  /** A cut list touched and cut again is the uncut list touched and cut: what fell off the end never matters. */
  lemma TakeTouch<K>(s: seq<K>, x: K, n: nat)
    requires Distinct(s)
    ensures Take(Touch(Take(s, n), x), n) == Take(Touch(s, x), n)
  {
    if |s| > n {
      assert s == s[..n] + s[n..];
      WithoutConcat(s[..n], s[n..], x);
      WithoutDistinct(s[..n], x);
      assert Touch(s, x) == Touch(s[..n], x) + Without(s[n..], x);
    }
  }

  function Elements<K>(s: seq<K>): set<K> {
    set x | x in s
  }

  lemma {:induction false} DistinctCount<K>(s: seq<K>)
    requires Distinct(s)
    ensures |Elements(s)| == |s|
  {
    if s != [] {
      DistinctCount(s[1..]);
      assert Elements(s) == {s[0]} + Elements(s[1..]);
    }
  }

  // ---------- positions ----------

  lemma {:induction false} BeforeTouch<K>(s: seq<K>, x: K, k: K)
    requires k in s && k != x
    ensures Before(Touch(s, x), k) == Before(s, k) + {x}
  {
    assert Touch(s, x)[1..] == Without(s, x);
    BeforeWithout(s, x, k);
  }

  lemma {:induction false} BeforeWithout<K>(s: seq<K>, x: K, k: K)
    requires k in s && k != x
    ensures Before(Without(s, x), k) == Before(s, k) - {x}
  {
    if s[0] == x {
      BeforeWithout(s[1..], x, k);
    } else if s[0] != k {
      BeforeWithout(s[1..], x, k);
      assert Without(s, x)[1..] == Without(s[1..], x);
    }
  }

  lemma {:induction false} BeforeMembers<K>(s: seq<K>, k: K)
    ensures forall y :: y in Before(s, k) ==> y in s
  {
    if s != [] && s[0] != k {
      BeforeMembers(s[1..], k);
    }
  }

  lemma {:induction false} BeforeCount<K>(s: seq<K>, i: nat)
    requires i < |s| && Distinct(s)
    ensures |Before(s, s[i])| == i
  {
    if i > 0 {
      BeforeCount(s[1..], i - 1);
      BeforeMembers(s[1..], s[i]);
      assert s[0] !in s[1..] && s[0] != s[i];
      assert Before(s, s[i]) == {s[0]} + Before(s[1..], s[i]);
    }
  }

  /** The stack holds each touched key once, and in front of it exactly the keys touched since. */
  lemma {:induction false} StackOrder<K>(touches: seq<K>)
    ensures Distinct(Stack(touches))
    ensures forall k :: k in Stack(touches) <==> k in touches
    ensures forall k :: k in touches ==> Before(Stack(touches), k) == Since(touches, k)
  {
    if touches != [] {
      var init, x := touches[..|touches| - 1], touches[|touches| - 1];
      StackOrder(init);
      TouchDistinct(Stack(init), x);
      WithoutMembers(Stack(init), x);
      assert touches == init + [x];
      forall k | k in touches
        ensures Before(Stack(touches), k) == Since(touches, k)
      {
        if k != x {
          BeforeTouch(Stack(init), x, k);
        }
      }
    }
  }

  /**
   The stack cut at `cap`, characterised by the history: place `i` holds the touched key
   since whose latest touch exactly `i` other keys were touched.
   */
  lemma StackPlaces<K>(touches: seq<K>, cap: nat, i: nat, k: K)
    ensures var s := Take(Stack(touches), cap);
      (i < |s| && s[i] == k) <==> (k in touches && |Since(touches, k)| == i && i < cap)
  {
    var full := Stack(touches);
    StackOrder(touches);
    if i < |full| && full[i] == k {
      BeforeCount(full, i);
    } else if k in touches {
      var j :| 0 <= j < |full| && full[j] == k;
      BeforeCount(full, j);
    }
  }

  lemma StackMembers<K>(touches: seq<K>, cap: nat, k: K)
    ensures k in Take(Stack(touches), cap) <==> Recent(touches, k, cap)
  {
    var s := Take(Stack(touches), cap);
    if k in s {
      var i :| 0 <= i < |s| && s[i] == k;
      StackPlaces(touches, cap, i, k);
    } else if k in touches {
      StackPlaces(touches, cap, |Since(touches, k)|, k);
    }
  }

  /** The cut stack after one more touch. */
  lemma StackCut<K>(touches: seq<K>, x: K, cap: nat)
    ensures Take(Stack(touches + [x]), cap) == Take(Touch(Take(Stack(touches), cap), x), cap)
  {
    StackOrder(touches);
    TakeTouch(Stack(touches), x, cap);
    assert (touches + [x])[..|touches + [x]| - 1] == touches;
  }

  // ---------- reversal ----------

  function Reverse<K>(s: seq<K>): seq<K> {
    if s == [] then [] else Reverse(s[1..]) + [s[0]]
  }

  lemma {:induction false} ReverseLength<K>(s: seq<K>)
    ensures |Reverse(s)| == |s|
  {
    if s != [] {
      ReverseLength(s[1..]);
    }
  }

  lemma {:induction false} ReverseMembers<K>(s: seq<K>, x: K)
    ensures x in Reverse(s) <==> x in s
  {
    if s != [] {
      ReverseMembers(s[1..], x);
      assert s == [s[0]] + s[1..];
    }
  }

  lemma {:induction false} ReverseSnoc<K>(s: seq<K>, x: K)
    ensures Reverse(s + [x]) == [x] + Reverse(s)
  {
    if s == [] {
      assert s + [x] == [x] && [x][1..] == [];
    } else {
      ReverseSnoc(s[1..], x);
      assert (s + [x])[1..] == s[1..] + [x];
    }
  }

  lemma {:induction false} ReverseDistinct<K>(s: seq<K>)
    requires Distinct(s)
    ensures Distinct(Reverse(s))
  {
    if s != [] {
      ReverseDistinct(s[1..]);
      ReverseMembers(s[1..], s[0]);
    }
  }

  lemma {:induction false} ReverseConcat<K>(a: seq<K>, b: seq<K>)
    ensures Reverse(a + b) == Reverse(b) + Reverse(a)
  {
    if a == [] {
      assert a + b == b;
    } else {
      ReverseConcat(a[1..], b);
      assert (a + b)[0] == a[0] && (a + b)[1..] == a[1..] + b;
    }
  }

  lemma {:induction false} ReverseTwice<K>(s: seq<K>)
    ensures Reverse(Reverse(s)) == s
  {
    if s != [] {
      ReverseSnoc(Reverse(s[1..]), s[0]);
      ReverseTwice(s[1..]);
    }
  }

  lemma {:induction false} ReverseWithout<K>(s: seq<K>, x: K)
    ensures Reverse(Without(s, x)) == Without(Reverse(s), x)
  {
    if s != [] {
      ReverseWithout(s[1..], x);
      WithoutConcat(Reverse(s[1..]), [s[0]], x);
      if s[0] != x {
        assert Without(s, x)[1..] == Without(s[1..], x);
      }
    }
  }
}
