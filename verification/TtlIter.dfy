/**
 The double-ended iterator of the time-to-live cache: `next` skips expired entries, `next_back` gives
 up at the first one, on the grounds that entries are in order of time. Every call has a clock reading
 of its own.
 */
module TtlIter {
  import opened Wrappers
  import opened Recency
  import opened Subsequences
  import opened TtlMap
  import opened TtlRuns
  import opened TtlEager
  import opened TtlOrder

  /** The entry `next` returns a view of, and what is left to iterate over. */
  function Next<K, V>(rest: seq<Entry<K, V>>, now: int): (r: (Option<Entry<K, V>>, seq<Entry<K, V>>))
    ensures |r.1| <= |rest| && (rest != [] ==> |r.1| < |rest|)
  {
    if rest == [] then (None, [])
    else if Expired(rest[0], now) then Next(rest[1..], now)
    else (Some(rest[0]), rest[1..])
  }

  function NextBack<K, V>(rest: seq<Entry<K, V>>, now: int): (r: (Option<Entry<K, V>>, seq<Entry<K, V>>))
    ensures |r.1| <= |rest| && (rest != [] ==> |r.1| < |rest|)
  {
    if rest == [] then (None, [])
    else
      var last := rest[|rest| - 1];
      (if Expired(last, now) then None else Some(last), rest[..|rest| - 1])
  }

  /** What the caller sees of an entry. */
  function PairOf<K, V>(e: Option<Entry<K, V>>): Option<(K, V)> {
    if e.Some? then Some((e.value.key, e.value.value)) else None
  }

  function Listed<T>(item: Option<T>): seq<T> {
    if item.Some? then [item.value] else []
  }

  /** One call takes at most one live entry, from its own end. */
  lemma {:induction false} NextTakesOldest<K, V>(rest: seq<Entry<K, V>>, now: int)
    ensures var (item, left) := Next(rest, now);
      && Live(rest, now) == Listed(item) + Live(left, now)
      && (if item.Some? then !Expired(item.value, now) else left == [])
  {
    if rest != [] && Expired(rest[0], now) {
      NextTakesOldest(rest[1..], now);
    }
  }

  lemma NextBackTakesYoungest<K, V>(rest: seq<Entry<K, V>>, now: int)
    ensures var (item, left) := NextBack(rest, now);
      && Live(rest, now) == Live(left, now) + Listed(item)
      && (item.Some? ==> !Expired(item.value, now))
  {
    if rest != [] {
      LiveSnoc(rest, now);
    }
  }

  // ---------- any interleaving of the two ends ----------

  datatype End = Front | Back

  /** A call at one of the ends, with its clock reading; for `next` that is the last one it makes. */
  datatype Call = Call(end: End, now: int)

  /** What a sequence of calls yields at each end, and what it leaves. */
  datatype Iteration<K, V> =
    Iteration(front: seq<Entry<K, V>>, back: seq<Entry<K, V>>, left: seq<Entry<K, V>>, ended: bool) {

    /** Everything yielded, in the order of the map. */
    function Yielded(): seq<Entry<K, V>> {
      front + Reverse(back)
    }
  }

  function Iterate<K, V>(rest: seq<Entry<K, V>>, calls: seq<Call>): Iteration<K, V> {
    if calls == [] then Iteration([], [], rest, false)
    else Taken(Iterate(rest, calls[..|calls| - 1]), calls[|calls| - 1])
  }

  /** One more call. */
  function Taken<K, V>(it: Iteration<K, V>, call: Call): Iteration<K, V> {
    var (item, left) := One(it.left, call);
    match call.end
    case Front => Iteration(it.front + Listed(item), it.back, left, it.ended || item.None?)
    case Back => Iteration(it.front, it.back + Listed(item), left, it.ended || item.None?)
  }

  function One<K, V>(rest: seq<Entry<K, V>>, call: Call): (Option<Entry<K, V>>, seq<Entry<K, V>>) {
    match call.end
    case Front => Next(rest, call.now)
    case Back => NextBack(rest, call.now)
  }

  /** The clock readings of the calls go from `start` to `end` and never back. */
  ghost predicate During(calls: seq<Call>, start: int, end: int) {
    && start <= end
    && (forall i :: 0 <= i < |calls| ==> start <= calls[i].now <= end)
    && (forall i, j :: 0 <= i < j < |calls| ==> calls[i].now <= calls[j].now)
  }

  lemma DuringMore(calls: seq<Call>, call: Call, start: int, end: int, later: int)
    requires During(calls, start, end) && end <= call.now <= later
    ensures During(calls + [call], start, later)
  {
  }

  lemma PairsListed<K, V>(m: seq<Entry<K, V>>, item: Option<Entry<K, V>>)
    ensures PairsOf(m + Listed(item)) == PairsOf(m) + Listed(PairOf(item))
  {
  }

  /** What the caller sees of one more call. */
  lemma OneMore<K, V>(rest: seq<Entry<K, V>>, calls: seq<Call>, call: Call)
    ensures var it, r := Iterate(rest, calls), Iterate(rest, calls + [call]);
      var (item, left) := One(it.left, call);
      && r.left == left
      && PairsOf(r.front) == PairsOf(it.front) + (if call.end.Front? then Listed(PairOf(item)) else [])
      && PairsOf(r.back) == PairsOf(it.back) + (if call.end.Back? then Listed(PairOf(item)) else [])
  {
    var it := Iterate(rest, calls);
    assert (calls + [call])[..|calls + [call]| - 1] == calls;
    assert Iterate(rest, calls + [call]) == Taken(it, call);
    PairsListed(it.front, One(it.left, call).0);
    PairsListed(it.back, One(it.left, call).0);
  }

  lemma ReverseListed<T>(back: seq<T>, item: Option<T>)
    ensures Reverse(back + Listed(item)) == Listed(item) + Reverse(back)
  {
    if item.Some? {
      ReverseSnoc(back, item.value);
    } else {
      assert back + Listed(item) == back && Listed(item) + Reverse(back) == Reverse(back);
    }
  }

  /** What one list of entries and two others have in common at one instant, they have in common later. */
  lemma LiveSplitLater<K, V>(m: seq<Entry<K, V>>, a: seq<Entry<K, V>>, b: seq<Entry<K, V>>, now: int, later: int)
    requires now <= later && Live(m, now) == Live(a, now) + Live(b, now)
    ensures Live(m, later) == Live(a, later) + Live(b, later)
  {
    LiveLater(m, now, later);
    LiveLater(a, now, later);
    LiveLater(b, now, later);
    LiveConcat(Live(a, now), Live(b, now), later);
  }

  lemma LiveListed<K, V>(item: Option<Entry<K, V>>, now: int)
    requires item.Some? ==> !Expired(item.value, now)
    ensures Live(Listed(item), now) == Listed(item)
  {
    AllLive(Listed(item), now);
  }

  /** A call loses nothing that is live, then or later. */
  lemma CallLosesNothing<K, V>(it: Iteration<K, V>, call: Call, later: int)
    requires call.now <= later
    ensures var r := Taken(it, call);
      Live(it.front + it.left + Reverse(it.back), later) == Live(r.front + r.left + Reverse(r.back), later)
  {
    var front, back := Next(it.left, call.now), NextBack(it.left, call.now);
    if call.end.Front? {
      NextTakesOldest(it.left, call.now);
      LiveListed(front.0, call.now);
      LiveSplitLater(it.left, Listed(front.0), front.1, call.now, later);
      LiveFront(it.front, it.left, Reverse(it.back), Listed(front.0), front.1, later);
    } else {
      NextBackTakesYoungest(it.left, call.now);
      LiveListed(back.0, call.now);
      LiveSplitLater(it.left, back.1, Listed(back.0), call.now, later);
      LiveBack(it.front, it.left, Reverse(it.back), back.1, Listed(back.0), later);
      ReverseListed(it.back, back.0);
    }
  }

  /** A middle part that splits in two may be counted with the part in front of it, or with the part behind it. */
  lemma LiveFront<K, V>(a: seq<Entry<K, V>>, b: seq<Entry<K, V>>, c: seq<Entry<K, V>>,
                        b0: seq<Entry<K, V>>, b1: seq<Entry<K, V>>, now: int)
    requires Live(b, now) == Live(b0, now) + Live(b1, now)
    ensures Live(a + b + c, now) == Live((a + b0) + b1 + c, now)
  {
    LiveAround(a, b, c, now);
    LiveAround(a + b0, b1, c, now);
    LiveConcat(a, b0, now);
    Associative(Live(a, now), Live(b0, now), Live(b1, now));
  }

  lemma LiveBack<K, V>(a: seq<Entry<K, V>>, b: seq<Entry<K, V>>, c: seq<Entry<K, V>>,
                       b0: seq<Entry<K, V>>, b1: seq<Entry<K, V>>, now: int)
    requires Live(b, now) == Live(b0, now) + Live(b1, now)
    ensures Live(a + b + c, now) == Live(a + b0 + (b1 + c), now)
  {
    LiveFront(a, b, c, b0, b1, now);
    Associative(a + b0, b1, c);
  }

  lemma LiveAround<K, V>(a: seq<Entry<K, V>>, b: seq<Entry<K, V>>, c: seq<Entry<K, V>>, now: int)
    ensures Live(a + b + c, now) == Live(a, now) + Live(b, now) + Live(c, now)
  {
    LiveConcat(a + b, c, now);
    LiveConcat(a, b, now);
  }

  /** No interleaving loses an entry that is live at the end, whatever the deadlines. */
  lemma {:induction false} NothingLost<K, V>(rest: seq<Entry<K, V>>, calls: seq<Call>, start: int, end: int)
    requires During(calls, start, end)
    ensures var it := Iterate(rest, calls);
      Live(it.front + it.left + Reverse(it.back), end) == Live(rest, end)
  {
    if calls == [] {
      assert [] + rest + Reverse<Entry<K, V>>([]) == rest;
    } else {
      NothingLost(rest, calls[..|calls| - 1], start, end);
      CallLosesNothing(Iterate(rest, calls[..|calls| - 1]), calls[|calls| - 1], end);
    }
  }

  // ---------- nothing twice, and nothing expired ----------

  lemma {:induction false} NextSkips<K, V>(rest: seq<Entry<K, V>>, now: int) returns (skipped: seq<Entry<K, V>>)
    ensures rest == skipped + Listed(Next(rest, now).0) + Next(rest, now).1
  {
    if rest == [] {
      skipped := [];
    } else if Expired(rest[0], now) {
      skipped := NextSkips(rest[1..], now);
      assert rest == [rest[0]] + rest[1..];
      skipped := [rest[0]] + skipped;
    } else {
      skipped := [];
    }
  }

  /** A call takes what it yields out of what was left, in place. */
  lemma CallRepeatsNothing<K, V>(it: Iteration<K, V>, call: Call, rest: seq<Entry<K, V>>)
    requires Sub(it.front + it.left + Reverse(it.back), rest)
    ensures var r := Taken(it, call); Sub(r.front + r.left + Reverse(r.back), rest)
  {
    var front, back := Next(it.left, call.now), NextBack(it.left, call.now);
    if call.end.Front? {
      var skipped := NextSkips(it.left, call.now);
      SubFront(it.front, skipped, Listed(front.0), front.1, Reverse(it.back), rest);
    } else {
      var skipped := NextBackSkips(it.left, call.now);
      SubBack(it.front, back.1, skipped, Listed(back.0), Reverse(it.back), rest);
      ReverseListed(it.back, back.0);
    }
  }

  lemma NextBackSkips<K, V>(rest: seq<Entry<K, V>>, now: int) returns (skipped: seq<Entry<K, V>>)
    ensures rest == NextBack(rest, now).1 + skipped + Listed(NextBack(rest, now).0)
  {
    skipped := if rest != [] && NextBack(rest, now).0.None? then [rest[|rest| - 1]] else [];
  }

  lemma SubFront<T>(a: seq<T>, skipped: seq<T>, b: seq<T>, c: seq<T>, d: seq<T>, rest: seq<T>)
    requires Sub(a + (skipped + b + c) + d, rest)
    ensures Sub((a + b) + c + d, rest)
  {
    assert a + (skipped + b + c) + d == a + skipped + (b + c + d);
    SubCut(a, skipped, b + c + d, rest);
    assert a + (b + c + d) == (a + b) + c + d;
  }

  lemma SubBack<T>(a: seq<T>, b: seq<T>, skipped: seq<T>, c: seq<T>, d: seq<T>, rest: seq<T>)
    requires Sub(a + (b + skipped + c) + d, rest)
    ensures Sub(a + b + (c + d), rest)
  {
    assert a + (b + skipped + c) + d == (a + b) + skipped + (c + d);
    SubCut(a + b, skipped, c + d, rest);
  }

  lemma {:induction false} NothingTwice<K, V>(rest: seq<Entry<K, V>>, calls: seq<Call>)
    ensures var it := Iterate(rest, calls); Sub(it.front + it.left + Reverse(it.back), rest)
  {
    if calls == [] {
      assert [] + rest + Reverse<Entry<K, V>>([]) == rest;
      SubSame(rest);
    } else {
      NothingTwice(rest, calls[..|calls| - 1]);
      CallRepeatsNothing(Iterate(rest, calls[..|calls| - 1]), calls[|calls| - 1], rest);
    }
  }

  lemma LiveAppend<K, V>(m: seq<Entry<K, V>>, item: Option<Entry<K, V>>, now: int)
    requires Live(m, now) == m && (item.Some? ==> !Expired(item.value, now))
    ensures Live(m + Listed(item), now) == m + Listed(item)
    ensures Live(Listed(item) + m, now) == Listed(item) + m
  {
    LiveListed(item, now);
    LiveConcat(m, Listed(item), now);
    LiveConcat(Listed(item), m, now);
  }

  /** What is yielded was live at its call, and so at the start. */
  lemma {:induction false} YieldedLive<K, V>(rest: seq<Entry<K, V>>, calls: seq<Call>, start: int, end: int)
    requires During(calls, start, end)
    ensures var it := Iterate(rest, calls);
      Live(it.front, start) == it.front && Live(Reverse(it.back), start) == Reverse(it.back)
  {
    if calls != [] {
      var it, last := Iterate(rest, calls[..|calls| - 1]), calls[|calls| - 1];
      YieldedLive(rest, calls[..|calls| - 1], start, end);
      if last.end.Front? {
        NextTakesOldest(it.left, last.now);
        LiveAppend(it.front, Next(it.left, last.now).0, start);
      } else {
        NextBackTakesYoungest(it.left, last.now);
        ReverseListed(it.back, NextBack(it.left, last.now).0);
        LiveAppend(Reverse(it.back), NextBack(it.left, last.now).0, start);
      }
    }
  }

  lemma {:induction false} SubLive<K, V>(a: seq<Entry<K, V>>, b: seq<Entry<K, V>>, now: int)
    requires Sub(a, b)
    ensures Sub(Live(a, now), Live(b, now))
  {
    if a != [] {
      if a[0] == b[0] {
        SubLive(a[1..], b[1..], now);
        SubCons(Live(a[1..], now), a[0], Live(b[1..], now));
      } else {
        SubLive(a, b[1..], now);
        SubCons(Live(a, now), b[0], Live(b[1..], now));
      }
    }
  }

  /** Whatever the deadlines, every interleaving yields entries that are live at the start, in order, none twice. */
  lemma YieldsOnce<K, V>(rest: seq<Entry<K, V>>, calls: seq<Call>, start: int, end: int)
    requires During(calls, start, end)
    ensures Sub(Iterate(rest, calls).Yielded(), Live(rest, start))
  {
    var it := Iterate(rest, calls);
    NothingTwice(rest, calls);
    SubCut(it.front, it.left, Reverse(it.back), rest);
    YieldedLive(rest, calls, start, end);
    LiveConcat(it.front, Reverse(it.back), start);
    SubLive(it.Yielded(), rest, start);
  }

  // ---------- everything ----------

  /** Of two entries, if the younger is expired then so is the older. */
  ghost predicate OldExpireFirst<K, V>(m: seq<Entry<K, V>>, now: int) {
    forall i, j :: 0 <= i < j < |m| && Expired(m[j], now) ==> Expired(m[i], now)
  }

  lemma {:induction false} NoneLive<K, V>(m: seq<Entry<K, V>>, now: int)
    requires forall i :: 0 <= i < |m| ==> Expired(m[i], now)
    ensures Live(m, now) == []
  {
    if m != [] {
      NoneLive(m[1..], now);
    }
  }

  /** What is left is a slice of the map. */
  lemma {:induction false} LeftIsSlice<K, V>(rest: seq<Entry<K, V>>, calls: seq<Call>) returns (lo: nat, hi: nat)
    ensures lo <= hi <= |rest| && Iterate(rest, calls).left == rest[lo..hi]
  {
    if calls == [] {
      lo, hi := 0, |rest|;
    } else {
      lo, hi := LeftIsSlice(rest, calls[..|calls| - 1]);
      var left, last := rest[lo..hi], calls[|calls| - 1];
      if last.end.Front? {
        var skipped := NextSkips(left, last.now);
        var n := |left| - |Next(left, last.now).1|;
        assert Next(left, last.now).1 == left[n..] == rest[lo + n..hi];
        lo := lo + n;
      } else if left != [] {
        hi := hi - 1;
      }
    }
  }

  /** A call at the end of which nothing live is left, if it returns `None` or nothing live was left before. */
  lemma CallEnds<K, V>(left: seq<Entry<K, V>>, call: Call, end: int)
    requires OldExpireFirst(left, call.now) && call.now <= end
    ensures var it := Taken(Iteration([], [], left, false), call);
      it.ended || Live(left, end) == [] ==> Live(it.left, end) == []
  {
    var front, back := Next(left, call.now), NextBack(left, call.now);
    if call.end.Front? {
      NextTakesOldest(left, call.now);
      LiveListed(front.0, call.now);
      LiveSplitLater(left, Listed(front.0), front.1, call.now, end);
    } else {
      NextBackTakesYoungest(left, call.now);
      LiveListed(back.0, call.now);
      LiveSplitLater(left, back.1, Listed(back.0), call.now, end);
      if back.0.None? {
        NoneLive(back.1, call.now);
        LiveLater(back.1, call.now, end);
      }
    }
  }

  lemma {:induction false} EndedLeavesNothing<K, V>(rest: seq<Entry<K, V>>, calls: seq<Call>, start: int, end: int)
    requires During(calls, start, end)
    requires forall i :: 0 <= i < |calls| ==> OldExpireFirst(rest, calls[i].now)
    ensures Iterate(rest, calls).ended ==> Live(Iterate(rest, calls).left, end) == []
  {
    if calls != [] {
      var init, last := calls[..|calls| - 1], calls[|calls| - 1];
      EndedLeavesNothing(rest, init, start, end);
      var lo, hi := LeftIsSlice(rest, init);
      assert OldExpireFirst(rest, last.now);
      CallEnds(Iterate(rest, init).left, last, end);
    }
  }

  /** What is live at the end has been yielded: all of it, once and in order. */
  ghost predicate Complete<K, V>(it: Iteration<K, V>, rest: seq<Entry<K, V>>, end: int) {
    Live(it.Yielded(), end) == Live(rest, end)
  }

  /**
   Double-ended iteration: when at each call older entries expire first, as they do in a sorted map, any interleaving of
   `next` and `next_back` in which some call has returned `None` has yielded exactly once, in order, each entry that is
   live at the end, and nothing that was not live at the start.
   */
  lemma ExactlyOnce<K, V>(rest: seq<Entry<K, V>>, calls: seq<Call>, start: int, end: int)
    requires During(calls, start, end)
    requires forall i :: 0 <= i < |calls| ==> OldExpireFirst(rest, calls[i].now)
    ensures var it := Iterate(rest, calls);
      Sub(it.Yielded(), Live(rest, start)) && (it.ended ==> Complete(it, rest, end))
  {
    YieldsOnce(rest, calls, start, end);
    NothingLost(rest, calls, start, end);
    EndedLeavesNothing(rest, calls, start, end);
    var it := Iterate(rest, calls);
    if it.ended {
      LiveAround(it.front, it.left, Reverse(it.back), end);
      LiveConcat(it.front, Reverse(it.back), end);
      assert Live(it.front, end) + [] == Live(it.front, end);
    }
  }

  // ---------- one end only ----------

  function Forward<K, V>(rest: seq<Entry<K, V>>, now: int): seq<Entry<K, V>>
    decreases |rest|
  {
    if rest == [] then []
    else
      var (item, left) := Next(rest, now);
      if item.Some? then [item.value] + Forward(left, now) else []
  }

  function Backward<K, V>(rest: seq<Entry<K, V>>, now: int): seq<Entry<K, V>>
    decreases |rest|
  {
    if rest == [] then []
    else
      var (item, left) := NextBack(rest, now);
      if item.Some? then [item.value] + Backward(left, now) else []
  }

  /** `next` to its first `None` yields exactly the live entries, oldest first, whatever the deadlines. */
  lemma {:induction false} ForwardIsLive<K, V>(rest: seq<Entry<K, V>>, now: int)
    ensures Forward(rest, now) == Live(rest, now)
    decreases |rest|
  {
    if rest != [] {
      NextTakesOldest(rest, now);
      ForwardIsLive(Next(rest, now).1, now);
    }
  }

  /** `next_back` to its first `None` yields the longest live stretch at the young end, youngest first. */
  lemma {:induction false} BackwardIsLiveSuffix<K, V>(rest: seq<Entry<K, V>>, now: int) returns (n: nat)
    ensures n <= |rest| && Backward(rest, now) == Reverse(rest[n..])
    ensures Live(rest[n..], now) == rest[n..]
    ensures n > 0 ==> Expired(rest[n - 1], now)
    decreases |rest|
  {
    if rest == [] {
      n := 0;
    } else {
      var init, last := rest[..|rest| - 1], rest[|rest| - 1];
      if Expired(last, now) {
        n := |rest|;
      } else {
        n := BackwardIsLiveSuffix(init, now);
        assert rest[n..] == init[n..] + [last];
        ReverseSnoc(init[n..], last);
        LiveAppend(init[n..], Some(last), now);
      }
    }
  }

  /**
   The exact condition under which `next_back` alone, at one instant, reaches every live entry: no live entry is older
   than an expired one.
   */
  lemma BackwardCompleteIff<K, V>(rest: seq<Entry<K, V>>, now: int)
    ensures Backward(rest, now) == Reverse(Live(rest, now)) <==> OldExpireFirst(rest, now)
  {
    var n := BackwardIsLiveSuffix(rest, now);
    BackwardReach(rest, n, now);
    OrderSplit(rest, n, now);
  }

  /** It reaches every live entry exactly if nothing older than the stretch it yields is live. */
  lemma BackwardReach<K, V>(rest: seq<Entry<K, V>>, n: nat, now: int)
    requires n <= |rest| && Live(rest[n..], now) == rest[n..]
    ensures Reverse(rest[n..]) == Reverse(Live(rest, now)) <==> Live(rest[..n], now) == []
  {
    assert rest == rest[..n] + rest[n..];
    LiveConcat(rest[..n], rest[n..], now);
    ReverseLength(rest[n..]);
    ReverseLength(Live(rest, now));
    if Live(rest[..n], now) == [] {
      assert [] + rest[n..] == rest[n..];
    }
  }

  lemma OrderSplit<K, V>(rest: seq<Entry<K, V>>, n: nat, now: int)
    requires n <= |rest| && Live(rest[n..], now) == rest[n..]
    requires n > 0 ==> Expired(rest[n - 1], now)
    ensures Live(rest[..n], now) == [] <==> OldExpireFirst(rest, now)
  {
    AllLive(rest[n..], now);
    forall j | n <= j < |rest|
      ensures !Expired(rest[j], now)
    {
      assert rest[j] == rest[n..][j - n];
    }
    if OldExpireFirst(rest, now) {
      NoneLive(rest[..n], now);
    }
    if Live(rest[..n], now) == [] {
      LiveNone(rest[..n], now);
      assert forall i :: 0 <= i < n ==> rest[i] == rest[..n][i];
    }
  }

  lemma {:induction false} LiveNone<K, V>(m: seq<Entry<K, V>>, now: int)
    requires Live(m, now) == []
    ensures forall i :: 0 <= i < |m| ==> Expired(m[i], now)
  {
    if m != [] {
      LiveNone(m[1..], now);
      assert forall i :: 0 < i < |m| ==> m[i] == m[1..][i - 1];
    }
  }

  // ---------- the exact condition for both ends ----------

  /** A call of `next_back` before all others puts its item first at the back. */
  lemma {:induction false} IterateBackFirst<K, V>(rest: seq<Entry<K, V>>, calls: seq<Call>, now: int)
    ensures var (item, left) := NextBack(rest, now);
      var it, rec := Iterate(rest, [Call(Back, now)] + calls), Iterate(left, calls);
      it == Iteration(rec.front, Listed(item) + rec.back, rec.left, item.None? || rec.ended)
  {
    var first := [Call(Back, now)];
    var all := first + calls;
    var (item, left) := NextBack(rest, now);
    if calls == [] {
      assert all[..|all| - 1] == [];
      assert Listed(item) == [] + Listed(item) == Listed(item) + [];
    } else {
      var init, last := calls[..|calls| - 1], calls[|calls| - 1];
      IterateBackFirst(rest, init, now);
      assert all[..|all| - 1] == first + init && all[|all| - 1] == last;
      assert Iterate(rest, all) == Taken(Iterate(rest, first + init), last);
      TakenBehind(Iterate(left, init), Listed(item), item.None?, last);
    }
  }

  /** What has come from the back before does not matter to a call. */
  lemma TakenBehind<K, V>(it: Iteration<K, V>, before: seq<Entry<K, V>>, ended: bool, call: Call)
    ensures var r := Taken(it, call);
      Taken(Iteration(it.front, before + it.back, it.left, ended || it.ended), call) ==
        Iteration(r.front, before + r.back, r.left, ended || r.ended)
  {
    if call.end.Back? {
      var item := Listed(NextBack(it.left, call.now).0);
      assert (before + it.back) + item == before + (it.back + item);
    }
  }

  /** Calls of `next_back` alone, at one instant, up to the first `None`. */
  lemma {:induction false} BackwardCalls<K, V>(rest: seq<Entry<K, V>>, now: int) returns (calls: seq<Call>)
    ensures During(calls, now, now)
    ensures var it := Iterate(rest, calls);
      it.ended && it.front == [] && it.back == Backward(rest, now)
    decreases |rest|
  {
    var (item, left) := NextBack(rest, now);
    var more: seq<Call> := [];
    if item.Some? {
      more := BackwardCalls(left, now);
    }
    calls := [Call(Back, now)] + more;
    IterateBackFirst(rest, more, now);
  }

  /** An instant at which a live entry is older than an expired one has an iteration that is not complete. */
  lemma Incomplete<K, V>(rest: seq<Entry<K, V>>, now: int) returns (calls: seq<Call>)
    requires !OldExpireFirst(rest, now)
    ensures During(calls, now, now)
    ensures Iterate(rest, calls).ended && !Complete(Iterate(rest, calls), rest, now)
  {
    calls := BackwardCalls(rest, now);
    var n := BackwardIsLiveSuffix(rest, now);
    BackwardCompleteIff(rest, now);
    ReverseTwice(rest[n..]);
    assert [] + rest[n..] == rest[n..];
    assert Iterate(rest, calls).Yielded() == rest[n..];
  }

  /**
   At one instant: every iteration that has come to a `None` is complete if and only if no live entry is older than an
   expired one.
   */
  lemma InterleavingIff<K, V>(rest: seq<Entry<K, V>>, now: int)
    ensures (forall calls: seq<Call> | During(calls, now, now) && Iterate(rest, calls).ended ::
               Complete(Iterate(rest, calls), rest, now))
      <==> OldExpireFirst(rest, now)
  {
    if OldExpireFirst(rest, now) {
      forall calls: seq<Call> | During(calls, now, now) && Iterate(rest, calls).ended
        ensures Complete(Iterate(rest, calls), rest, now)
      {
        ExactlyOnce(rest, calls, now, now);
      }
    } else {
      var calls := Incomplete(rest, now);
    }
  }

  /** From `start` on, no entry will ever be live that is older than an expired one. */
  ghost predicate SortedFrom<K, V>(m: seq<Entry<K, V>>, start: int) {
    forall i, j :: 0 <= i < j < |m| ==> m[i].expiration <= m[j].expiration || Expired(m[i], start)
  }

  lemma SortedFromIff<K, V>(m: seq<Entry<K, V>>, start: int)
    ensures SortedFrom(m, start) <==> (forall now :: now >= start ==> OldExpireFirst(m, now))
  {
    if !SortedFrom(m, start) {
      var i, j :| 0 <= i < j < |m| && m[i].expiration > m[j].expiration && !Expired(m[i], start);
      var now := if start > m[j].expiration then start else m[j].expiration + 1;
      assert Expired(m[j], now) && !Expired(m[i], now);
      assert !OldExpireFirst(m, now);
    }
  }

  /**
   Iteration while time goes by: every interleaving, whatever its clock readings from `start` on, is complete once it
   has come to a `None`, if and only if the entries not yet expired at `start` expire no later than any younger entry.
   */
  lemma TimedInterleavingIff<K, V>(rest: seq<Entry<K, V>>, start: int)
    ensures (forall calls: seq<Call>, end: int | During(calls, start, end) && Iterate(rest, calls).ended ::
               Complete(Iterate(rest, calls), rest, end))
      <==> SortedFrom(rest, start)
  {
    SortedFromIff(rest, start);
    if SortedFrom(rest, start) {
      forall calls: seq<Call>, end: int | During(calls, start, end) && Iterate(rest, calls).ended
        ensures Complete(Iterate(rest, calls), rest, end)
      {
        ExactlyOnce(rest, calls, start, end);
      }
    } else {
      var now :| now >= start && !OldExpireFirst(rest, now);
      var calls := Incomplete(rest, now);
      assert During(calls, start, now);
    }
  }

  // ---------- iterating over a cache ----------

  /** What `iter` hands out at an instant, after a run. */
  function Handed<K(==), V>(cap: nat, run: seq<Timed<K, V>>, now: int): seq<Entry<K, V>> {
    Lazy(LazyRun(cap, run), Iter, now).0.entries
  }

  lemma HandedTrimmed<K, V>(cap: nat, run: seq<Timed<K, V>>, now: int)
    ensures Handed(cap, run, now) == Trimmed(LazyRun(cap, run).entries, now)
  {
  }

  lemma AlwaysOrderlySorted<K, V>(cap: nat, run: seq<Timed<K, V>>)
    requires AlwaysOrderly(cap, run)
    ensures Sorted(LazyRun(cap, run).entries)
  {
    SortedIffOrderly(cap, run);
  }

  /** What trimming removes is live at no later time, and does not matter to the order of the rest. */
  lemma TrimmedOrder<K, V>(m: seq<Entry<K, V>>, start: int)
    ensures SortedFrom(Trimmed(m, start), start) <==> SortedFrom(m, start)
    ensures OldExpireFirst(Trimmed(m, start), start) <==> OldExpireFirst(m, start)
    ensures forall end :: end >= start ==> Live(Trimmed(m, start), end) == Live(m, end)
  {
    var n := TrimmedIsSuffix(m, start);
    var t := m[n..];
    assert forall i :: n <= i < |m| ==> m[i] == t[i - n];
    forall end | end >= start
      ensures Live(t, end) == Live(m, end)
    {
      LiveTrimmed(m, start);
      LiveLater(m, start, end);
      LiveLater(t, start, end);
    }
    if SortedFrom(t, start) {
      forall i, j | 0 <= i < j < |m|
        ensures m[i].expiration <= m[j].expiration || Expired(m[i], start)
      {
        assert i >= n ==> m[i] == t[i - n] && m[j] == t[j - n];
      }
    }
    if OldExpireFirst(t, start) {
      forall j | n <= j < |m|
        ensures !Expired(m[j], start)
      {
        assert m[j] == t[j - n] && m[n] == t[0];
      }
    }
  }

  /**
   Iterating over the cache after a run that has kept it in order of time: any interleaving of both ends yields entries
   that are live at `iter`, in order and none twice; and once it has come to a `None`, every entry of the cache that it
   has not yielded has expired.
   */
  lemma IterationAfterRun<K, V>(cap: nat, run: seq<Timed<K, V>>, calls: seq<Call>, start: int, end: int)
    requires AlwaysOrderly(cap, run) && During(calls, start, end)
    ensures var it, m := Iterate(Handed(cap, run, start), calls), LazyRun(cap, run).entries;
      Sub(it.Yielded(), Live(m, start)) && (it.ended ==> Complete(it, m, end))
  {
    AlwaysOrderlySorted(cap, run);
    HandedTrimmed(cap, run, start);
    SortedIteration(LazyRun(cap, run).entries, calls, start, end);
  }

  lemma SortedIteration<K, V>(m: seq<Entry<K, V>>, calls: seq<Call>, start: int, end: int)
    requires Sorted(m) && During(calls, start, end)
    ensures var it := Iterate(Trimmed(m, start), calls);
      Sub(it.Yielded(), Live(m, start)) && (it.ended ==> Complete(it, m, end))
  {
    TrimmedOrder(m, start);
    SortedFromIff(Trimmed(m, start), start);
    ExactlyOnce(Trimmed(m, start), calls, start, end);
  }

  /**
   The exact condition, after any run at all, read off the map before `iter`: every interleaving, whatever its clock
   readings, is complete once it has come to a `None`, if and only if the entries live at `iter` expire no later than
   any younger entry.
   */
  lemma IterationIff<K, V>(cap: nat, run: seq<Timed<K, V>>, start: int)
    ensures var m := LazyRun(cap, run).entries;
      (forall calls: seq<Call>, end: int
         | During(calls, start, end) && Iterate(Handed(cap, run, start), calls).ended ::
           Complete(Iterate(Handed(cap, run, start), calls), m, end))
      <==> SortedFrom(m, start)
  {
    var m := LazyRun(cap, run).entries;
    TrimmedOrder(m, start);
    HandedTrimmed(cap, run, start);
    TimedInterleavingIff(Trimmed(m, start), start);
  }

  /** And while the clock stands still: if and only if no live entry of the map is older than an expired one. */
  lemma IterationAtOnceIff<K, V>(cap: nat, run: seq<Timed<K, V>>, now: int)
    ensures var m := LazyRun(cap, run).entries;
      (forall calls: seq<Call> | During(calls, now, now) && Iterate(Handed(cap, run, now), calls).ended ::
         Complete(Iterate(Handed(cap, run, now), calls), m, now))
      <==> OldExpireFirst(m, now)
  {
    var m := LazyRun(cap, run).entries;
    TrimmedOrder(m, now);
    HandedTrimmed(cap, run, now);
    InterleavingIff(Trimmed(m, now), now);
  }

  /**
   Two times to live are enough for `next_back` to miss a live entry, trimming or not: after these two inserts the older
   entry is live and the younger one expired, and iterating backwards yields nothing.
   */
  lemma BackwardMissesLive<K, V>(a: K, b: K, v: V) returns (run: seq<Timed<K, V>>)
    requires a != b
    ensures Timely(run) && |run| == 2 && run[0].op.Insert? && run[1].op.Insert? && run[1].now <= 5
    ensures Live(LazyRun(2, run).entries, 5) == [Entry(a, v, 10)]
    ensures Backward(Handed(2, run, 5), 5) == []
  {
    var ea, eb := Entry(a, v, 10), Entry(b, v, 1);
    run := TwoInserted(ea, eb);
    Live2(ea, eb, 5);
    assert [ea] + [] == [ea];
    assert Handed(2, run, 5) == [ea, eb];
  }
}
