/** Lists put together, and subsequences: what is left of a list when some of its elements are taken out. */
module Subsequences {

  lemma Associative<T>(a: seq<T>, b: seq<T>, c: seq<T>)
    ensures (a + b) + c == a + (b + c)
  {
  }

  /** `a` is a subsequence of `b`: the same elements in the same order, some left out. */
  ghost predicate Sub<T>(a: seq<T>, b: seq<T>) {
    a == [] || (b != [] && if a[0] == b[0] then Sub(a[1..], b[1..]) else Sub(a, b[1..]))
  }

  /** Where the elements of `a` stand in `b`, in order. */
  lemma {:induction false} SubPlaces<T>(a: seq<T>, b: seq<T>) returns (places: seq<nat>)
    requires Sub(a, b)
    ensures |places| == |a|
    ensures forall i :: 0 <= i < |a| ==> places[i] < |b| && b[places[i]] == a[i]
    ensures forall i, j :: 0 <= i < j < |a| ==> places[i] < places[j]
  {
    if a == [] {
      places := [];
    } else if a[0] == b[0] {
      var rest := SubPlaces(a[1..], b[1..]);
      places := [0] + seq(|rest|, i requires 0 <= i < |rest| => rest[i] + 1);
    } else {
      var rest := SubPlaces(a, b[1..]);
      places := seq(|rest|, i requires 0 <= i < |rest| => rest[i] + 1);
    }
  }

  lemma {:induction false} SubTail<T>(a: seq<T>, b: seq<T>)
    requires a != [] && Sub(a, b)
    ensures Sub(a[1..], b)
  {
    if a[0] == b[0] {
      if |a| > 1 && a[1] == b[0] {
        SubTail(a[1..], b[1..]);
      }
    } else {
      SubTail(a, b[1..]);
      if |a| > 1 && a[1] == b[0] {
        SubTail(a[1..], b[1..]);
      }
    }
  }

  lemma {:induction false} SubInit<T>(a: seq<T>, b: seq<T>)
    requires a != [] && Sub(a, b)
    ensures Sub(a[..|a| - 1], b[..|b| - 1])
  {
    if |a| > 1 {
      if a[0] == b[0] {
        SubInit(a[1..], b[1..]);
        assert a[..|a| - 1][1..] == a[1..][..|a[1..]| - 1];
      } else {
        SubInit(a, b[1..]);
      }
      assert b[..|b| - 1][1..] == b[1..][..|b[1..]| - 1];
    }
  }

  lemma {:induction false} SubShorten<T>(a: seq<T>, b: seq<T>)
    requires a != [] && Sub(a, b)
    ensures Sub(a[..|a| - 1], b)
  {
    if |a| > 1 {
      if a[0] == b[0] {
        SubShorten(a[1..], b[1..]);
        assert a[..|a| - 1][1..] == a[1..][..|a[1..]| - 1];
      } else {
        SubShorten(a, b[1..]);
      }
    }
  }

  lemma SubCons<T>(a: seq<T>, x: T, b: seq<T>)
    requires Sub(a, b)
    ensures Sub(a, [x] + b) && Sub([x] + a, [x] + b)
  {
    assert ([x] + b)[1..] == b && ([x] + a)[1..] == a;
    if a != [] && a[0] == x {
      SubTail(a, b);
    }
  }

  lemma {:induction false} SubMember<T>(a: seq<T>, b: seq<T>, x: T)
    requires Sub(a, b) && x in a
    ensures x in b
  {
    if a[0] != b[0] {
      SubMember(a, b[1..], x);
    } else if x != a[0] {
      SubMember(a[1..], b[1..], x);
    }
  }

  /** Taking out more leaves a subsequence. */
  lemma {:induction false} SubCut<T>(a: seq<T>, x: seq<T>, c: seq<T>, b: seq<T>)
    requires Sub(a + x + c, b)
    ensures Sub(a + c, b)
    decreases |b| + |x|
  {
    if x == [] {
      assert a + x + c == a + c;
    } else if a == [] {
      assert a + x + c == x + c && (x + c)[1..] == [] + x[1..] + c;
      SubTail(x + c, b);
      SubCut([], x[1..], c, b);
    } else if a[0] == b[0] {
      assert (a + x + c)[1..] == a[1..] + x + c && (a + c)[1..] == a[1..] + c;
      SubCut(a[1..], x, c, b[1..]);
    } else {
      SubCut(a, x, c, b[1..]);
    }
  }

  lemma {:induction false} SubSame<T>(a: seq<T>)
    ensures Sub(a, a)
  {
    if a != [] {
      SubSame(a[1..]);
    }
  }
}
