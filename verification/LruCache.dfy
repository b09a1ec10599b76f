/**
 The LRU cache on the heap: a circular doubly linked list through a sentinel, whose other
 nodes are the boxes of a map. Each method is proved to do to the list of pairs read off the
 ring what `LruList` does to a plain list.
 */
module LruCache {
  import opened Wrappers
  import opened Recency
  import opened Subsequences
  import opened LruList

  class LruEntry<K(0), V(0)> {
    var next: LruEntry?<K, V>
    var prev: LruEntry?<K, V>
    const key: K
    var value: V

    constructor (k: K, v: V)
      ensures key == k && value == v && next == null && prev == null
    {
      key, value := k, v;
      next, prev := null, null;
    }

    /** The sentinel; its key and value are never read. */
    constructor Sentinel()
      ensures next == this && prev == this
    {
      next, prev := this, this;
    }
  }

  /** Each node of `ring` points on to the one after it, and that one back. */
  ghost predicate Linked<K(0), V(0)>(ring: seq<LruEntry<K, V>>)
    reads ring
  {
    && (forall i {:trigger ring[i].next} :: 0 <= i < |ring| - 1 ==> ring[i].next == ring[i + 1])
    && (forall i {:trigger ring[i].prev} :: 0 < i < |ring| ==> ring[i].prev == ring[i - 1])
  }

  /** A ring whose links step over place `i + 1`, and are otherwise whole, is linked without that place. */
  lemma LinkedCut<K(0), V(0)>(ring: seq<LruEntry<K, V>>, i: nat)
    requires i + 2 < |ring|
    requires forall o {:trigger ring[o].next} ::
      0 <= o < |ring| - 1 && o != i && o != i + 1 ==> ring[o].next == ring[o + 1]
    requires forall o {:trigger ring[o].prev} ::
      0 < o < |ring| && o != i + 1 && o != i + 2 ==> ring[o].prev == ring[o - 1]
    requires ring[i].next == ring[i + 2] && ring[i + 2].prev == ring[i]
    ensures Linked(ring[..i + 1] + ring[i + 2..])
  {
    var cut := ring[..i + 1] + ring[i + 2..];
    forall j | 0 <= j < |cut| - 1
      ensures cut[j].next == cut[j + 1]
    {
      var o := if j <= i then j else j + 1;
      assert cut[j] == ring[o];
    }
    forall j | 0 < j < |cut|
      ensures cut[j].prev == cut[j - 1]
    {
      var o := if j <= i then j else j + 1;
      assert cut[j] == ring[o];
    }
  }

  /** The nodes carry the pairs of `list`, in order. */
  ghost predicate Carry<K(0), V(0)>(ns: seq<LruEntry<K, V>>, list: seq<Pair<K, V>>)
    reads ns`value
  {
    && |ns| == |list|
    && (forall i {:trigger ns[i].key} :: 0 <= i < |ns| ==> ns[i].key == list[i].0)
    && (forall i {:trigger ns[i].value} :: 0 <= i < |ns| ==> ns[i].value == list[i].1)
  }

  /** The map's boxes are the nodes of the ring, each under its own key: every node is, and there are no others. */
  ghost predicate IndexedBy<K(0), V(0)>(m: map<K, LruEntry<K, V>>, ns: seq<LruEntry<K, V>>) {
    && (forall i {:trigger ns[i].key} :: 0 <= i < |ns| ==> ns[i].key in m && m[ns[i].key] == ns[i])
    && |m| == |ns|
  }

  lemma SubsetOfSameSize<K>(a: set<K>, b: set<K>)
    requires a <= b && |a| == |b|
    ensures a == b
  {
    assert b == a + (b - a);
    assert |b| == |a| + |b - a|;
  }

  lemma KeysDistinct<K(0), V(0)>(m: map<K, LruEntry<K, V>>, ns: seq<LruEntry<K, V>>, list: seq<Pair<K, V>>)
    requires IndexedBy(m, ns) && Distinct(ns) && Carry(ns, list)
    ensures Distinct(Keys(list)) && Elements(Keys(list)) == m.Keys
  {
    var ks := Keys(list);
    forall i, j | 0 <= i < j < |ks|
      ensures ks[i] != ks[j]
    {
      assert m[ns[i].key] == ns[i] != ns[j] == m[ns[j].key];
    }
    forall k | k in Elements(ks)
      ensures k in m
    {
      var i :| 0 <= i < |ks| && ks[i] == k;
      assert ns[i].key == k;
    }
    DistinctCount(ks);
    SubsetOfSameSize(Elements(ks), m.Keys);
  }

  function Cut<T>(s: seq<T>, i: nat): (r: seq<T>)
    requires i < |s|
    ensures |r| == |s| - 1
  {
    s[..i] + s[i + 1..]
  }

  lemma CutDistinct<T>(s: seq<T>, i: nat)
    requires i < |s| && Distinct(s)
    ensures Distinct(Cut(s, i)) && (forall x <- Cut(s, i) :: x in s)
  {
    forall a, b | 0 <= a < b < |Cut(s, i)|
      ensures Cut(s, i)[a] != Cut(s, i)[b]
    {
      assert Cut(s, i)[a] == s[if a < i then a else a + 1];
      assert Cut(s, i)[b] == s[if b < i then b else b + 1];
    }
  }

  /** Among distinct keys, `Drop` cuts out one place. */
  lemma {:induction false} DropAt<K, V>(list: seq<Pair<K, V>>, i: nat)
    requires Distinct(Keys(list)) && i < |list|
    ensures Drop(list, list[i].0) == Cut(list, i)
  {
    assert Keys(list)[1..] == Keys(list[1..]);
    if i == 0 {
      assert Keys(list)[0] !in Keys(list[1..]);
      DropAbsent(list[1..], list[0].0);
    } else {
      assert Keys(list)[0] != Keys(list)[i];
      DropAt(list[1..], i - 1);
      assert Drop(list, list[i].0) == [list[0]] + Cut(list[1..], i - 1);
    }
  }

  /** Looking a key up in the map is finding it in the list; the box found is a node of the ring, here at place `i`. */
  lemma Lookup<K(0), V(0)>(m: map<K, LruEntry<K, V>>, ns: seq<LruEntry<K, V>>, list: seq<Pair<K, V>>, k: K)
      returns (i: nat)
    requires IndexedBy(m, ns) && Distinct(ns) && Carry(ns, list)
    ensures k in m ==>
      && i < |ns| && ns[i] == m[k] && list[i].0 == k
      && Find(list, k) == Some(list[i].1) && Drop(list, k) == Cut(list, i)
    ensures k !in m ==> Find(list, k) == None && Drop(list, k) == list
  {
    KeysDistinct(m, ns, list);
    assert k in Keys(list) <==> k in m.Keys;
    i := 0;
    if k in m {
      i :| 0 <= i < |list| && Keys(list)[i] == k;
      assert ns[i].key == k;
      DropAt(list, i);
      FindAt(list, i);
    } else {
      DropAbsent(list, k);
    }
  }

  lemma CutIndexed<K(0), V(0)>(m: map<K, LruEntry<K, V>>, ns: seq<LruEntry<K, V>>, i: nat)
    requires IndexedBy(m, ns) && i < |ns|
    requires forall j :: 0 <= j < |ns| && j != i ==> ns[j].key != ns[i].key
    ensures IndexedBy(m - {ns[i].key}, Cut(ns, i))
  {
    assert (m - {ns[i].key}).Keys == m.Keys - {ns[i].key};
  }

  /** Cutting a place out of the ring, out of the list, and its key out of the map belong together. */
  lemma CutConsistent<K(0), V(0)>(m: map<K, LruEntry<K, V>>, ns: seq<LruEntry<K, V>>, list: seq<Pair<K, V>>, i: nat)
    requires IndexedBy(m, ns) && Distinct(ns) && Carry(ns, list) && i < |ns|
    ensures IndexedBy(m - {ns[i].key}, Cut(ns, i)) && Carry(Cut(ns, i), Cut(list, i))
  {
    forall j | 0 <= j < |ns| && j != i
      ensures ns[j].key != ns[i].key
    {
      assert m[ns[j].key] == ns[j] != ns[i] == m[ns[i].key];
    }
    CutIndexed(m, ns, i);
  }

  /** Moving a place of the ring and of the list to the front. */
  lemma FrontConsistent<K(0), V(0)>(m: map<K, LruEntry<K, V>>, ns: seq<LruEntry<K, V>>, list: seq<Pair<K, V>>, i: nat)
    requires IndexedBy(m, ns) && Carry(ns, list) && i < |ns|
    ensures IndexedBy(m, [ns[i]] + Cut(ns, i)) && Carry([ns[i]] + Cut(ns, i), [list[i]] + Cut(list, i))
  {
  }

  class LruCache<K(==,0), V(0)> {
    var boxes: map<K, LruEntry<K, V>>
    var maxSize: nat
    const head: LruEntry<K, V>

    /** The nodes of the ring after the sentinel, most recently used first. */
    ghost var nodes: seq<LruEntry<K, V>>

    /** The abstract value: the pairs of those nodes. */
    ghost var contents: seq<Pair<K, V>>

    ghost function Ring(): seq<LruEntry<K, V>>
      reads `nodes
    {
      [head] + nodes + [head]
    }

    ghost predicate WellLinked()
      reads `nodes, head, nodes
    {
      && head !in nodes
      && Distinct(nodes)
      && Linked(Ring())
    }

    /** All but the bound on the size. */
    ghost predicate Consistent()
      reads this, head, nodes
    {
      WellLinked() && IndexedBy(boxes, nodes) && Carry(nodes, contents)
    }

    ghost predicate Valid()
      reads this, head, nodes
    {
      Consistent() && |nodes| <= maxSize
    }

    constructor (capacity: nat)
      ensures Valid() && fresh(head)
      ensures contents == [] && maxSize == capacity
    {
      boxes := map[];
      maxSize := capacity;
      head := new LruEntry.Sentinel();
      nodes := [];
      contents := [];
    }

    /** Only the sentinel occurs twice on the closed ring, at its two ends. */
    lemma RingDistinct()
      requires WellLinked()
      ensures forall a, b :: 0 <= a < b <= |nodes| ==> Ring()[a] != Ring()[b]
      ensures forall a, b :: 1 <= a < b <= |nodes| + 1 ==> Ring()[a] != Ring()[b]
    {
    }

    method Detach(node: LruEntry<K, V>, ghost i: nat)
      requires WellLinked() && i < |nodes| && node == nodes[i]
      modifies `nodes, head`next, head`prev, nodes`next, nodes`prev
      ensures WellLinked()
      ensures nodes == Cut(old(nodes), i)
    {
      ghost var ring := Ring();
      RingDistinct();
      assert ring[i + 1] == node && node.prev == ring[i] && node.next == ring[i + 2];
      CutDistinct(nodes, i);
      node.prev.next := node.next;
      node.next.prev := node.prev;
      nodes := Cut(nodes, i);
      assert Ring() == ring[..i + 1] + ring[i + 2..];
      LinkedCut(ring, i);
    }

    method Attach(node: LruEntry<K, V>)
      requires WellLinked() && node !in nodes && node != head
      modifies `nodes, head`next, head`prev, nodes`next, nodes`prev, node`next, node`prev
      ensures WellLinked()
      ensures nodes == [node] + old(nodes)
    {
      ghost var ring := Ring();
      RingDistinct();
      assert ring[0] == head && head.next == ring[1];
      node.next := head.next;
      node.prev := head;
      head.next := node;
      node.next.prev := node;
      nodes := [node] + nodes;
      assert Ring() == [head, node] + ring[1..];
      forall j | 0 <= j < |Ring()|
        ensures j < |Ring()| - 1 ==> Ring()[j].next == Ring()[j + 1]
        ensures 0 < j ==> Ring()[j].prev == Ring()[j - 1]
      {
        if j > 1 {
          assert Ring()[j] == ring[j - 1];
        }
      }
    }

    /** `detach` then `attach`: the node becomes the most recent one. */
    method MoveToFront(node: LruEntry<K, V>, ghost i: nat)
      requires WellLinked() && i < |nodes| == |contents| && node == nodes[i]
      modifies `nodes, `contents, head`next, head`prev, nodes`next, nodes`prev
      ensures WellLinked()
      ensures nodes == [node] + Cut(old(nodes), i)
      ensures contents == [old(contents)[i]] + Cut(old(contents), i)
    {
      Detach(node, i);
      Attach(node);
      contents := [contents[i]] + Cut(contents, i);
    }

    method Len() returns (r: nat)
      ensures r == |boxes|
      ensures Consistent() ==> r == |contents|
    {
      r := |boxes|;
    }

    method RemoveLru()
      requires Consistent()
      modifies this, head, nodes
      ensures Consistent() && maxSize == old(maxSize)
      ensures nodes <= old(nodes)
      ensures contents == LruList.RemoveLru(old(contents))
      ensures contents == if old(contents) == [] then [] else old(contents)[..|old(contents)| - 1]
    {
      var n := Len();
      if n != 0 {
        var lru := head.prev;
        assert Ring()[n + 1].prev == Ring()[n] == nodes[n - 1];
        CutConsistent(boxes, nodes, contents, n - 1);
        assert Cut(nodes, n - 1) == nodes[..n - 1] && Cut(contents, n - 1) == contents[..n - 1];
        Detach(lru, n - 1);
        boxes := boxes - {lru.key};
        contents := Cut(contents, n - 1);
      }
    }

    /** A new box goes into the map and to the front of the ring. */
    method Insert(k: K, v: V)
      requires Consistent() && k !in boxes
      modifies this, head, nodes
      ensures Consistent() && maxSize == old(maxSize)
      ensures |nodes| == |old(nodes)| + 1 && fresh(nodes[0]) && nodes[1..] == old(nodes)
      ensures contents == [(k, v)] + old(contents)
    {
      var node := new LruEntry(k, v);
      boxes := boxes[k := node];
      Attach(node);
      contents := [(k, v)] + contents;
    }

    /** A box already in the map gets a new value and becomes the most recent one. */
    method Update(node: LruEntry<K, V>, v: V, ghost i: nat)
      requires Consistent() && i < |nodes| && node == nodes[i]
      modifies this, head, nodes
      ensures Consistent() && maxSize == old(maxSize)
      ensures nodes == [node] + Cut(old(nodes), i)
      ensures contents == [(node.key, v)] + Cut(old(contents), i)
    {
      node.value := v;
      contents := contents[i := (node.key, v)];
      FrontConsistent(boxes, nodes, contents, i);
      MoveToFront(node, i);
    }

    method Put(k: K, v: V)
      requires Valid()
      modifies this, head, nodes
      ensures Valid() && maxSize == old(maxSize)
      ensures forall n <- nodes :: n in old(nodes) || fresh(n)
      ensures contents == PutList(old(contents), k, v, maxSize)
    {
      ghost var i := Lookup(boxes, nodes, contents, k);
      if k in boxes {
        Update(boxes[k], v, i);
      } else {
        Insert(k, v);
        var len := Len();
        if len > maxSize {
          RemoveLru();
        }
      }
    }

    method Get(k: K) returns (r: Option<V>)
      requires Valid()
      modifies this, head, nodes
      ensures Valid() && maxSize == old(maxSize)
      ensures forall n <- nodes :: n in old(nodes)
      ensures r == Find(old(contents), k)
      ensures contents == GetList(old(contents), k)
    {
      ghost var i := Lookup(boxes, nodes, contents, k);
      if k !in boxes {
        return None;
      }
      var node := boxes[k];
      r := Some(node.value);
      FrontConsistent(boxes, nodes, contents, i);
      MoveToFront(node, i);
    }

    /**
     `pop` as written, on any map, also one that earlier calls of it have left out of step with the ring. The map lets
     go of the box but the ring keeps it: the result is right, but a good representation survives only if there was
     nothing to remove.
     */
    method Pop(k: K) returns (r: Option<V>)
      modifies this`boxes
      ensures boxes == old(boxes) - {k}
      ensures r == if k in old(boxes) then Some(old(boxes)[k].value) else None
      ensures old(Valid()) ==> r == Find(contents, k) && WellLinked() && Carry(nodes, contents)
      ensures old(Valid()) ==> (Valid() <==> k !in old(boxes))
    {
      r := if k in boxes then Some(boxes[k].value) else None;
      PopResult(k);
      boxes := boxes - {k};
      assert k in old(boxes) ==> boxes.Keys == old(boxes).Keys - {k};
      assert k !in old(boxes) ==> boxes == old(boxes);
    }

    lemma PopResult(k: K)
      ensures Valid() ==> Find(contents, k) == if k in boxes then Some(boxes[k].value) else None
    {
      if Valid() {
        var i := Lookup(boxes, nodes, contents, k);
        assert k in boxes ==> nodes[i].value == contents[i].1;
      }
    }

    /** Not in the source: a `pop` that also detaches the node, as `remove_lru` does. */
    method PopDetaching(k: K) returns (r: Option<V>)
      requires Valid()
      modifies this, head, nodes
      ensures Valid() && maxSize == old(maxSize)
      ensures r == Find(old(contents), k)
      ensures contents == Drop(old(contents), k)
    {
      ghost var i := Lookup(boxes, nodes, contents, k);
      if k !in boxes {
        return None;
      }
      var node := boxes[k];
      r := Some(node.value);
      CutConsistent(boxes, nodes, contents, i);
      Detach(node, i);
      boxes := boxes - {k};
      contents := Cut(contents, i);
    }

    method ChangeCapacity(capacity: nat)
      requires Valid()
      modifies this, head, nodes
      ensures Valid() && maxSize == capacity
      ensures nodes <= old(nodes) && forall n <- nodes :: n in old(nodes)
      ensures contents == Take(old(contents), capacity)
    {
      var len := Len();
      var i := capacity;
      while i < len
        invariant capacity <= i && (i <= len || i == capacity)
        invariant Consistent()
        invariant nodes <= old(nodes)
        invariant contents == old(contents)[..len - (i - capacity)]
      {
        RemoveLru();
        i := i + 1;
      }
      maxSize := capacity;
    }

    /** Whatever the operation, the object takes the step of the plain list. */
    method Perform(op: Op<K, V>)
      requires Valid()
      modifies this, head, nodes
      ensures Valid()
      ensures forall n <- nodes :: n in old(nodes) || fresh(n)
      ensures Lru(contents, maxSize) == Apply(Lru(old(contents), old(maxSize)), op)
    {
      match op
      case Put(k, v) => Put(k, v);
      case Get(k) => var _ := Get(k);
      case ChangeCapacity(capacity) => ChangeCapacity(capacity);
    }

    /** `fmt`: the pairs as text, read by walking `next` from the sentinel for `len()` steps. */
    method Fmt(showKey: K -> string, showValue: V -> string) returns (text: string)
      requires Valid()
      ensures text == "{" + Joined(contents, showKey, showValue) + "}"
    {
      text := "{";
      var len := Len();
      var cur := head;
      for i := 0 to len
        invariant cur == Ring()[i]
        invariant text == "{" + Joined(contents[..i], showKey, showValue)
      {
        if i > 0 {
          text := text + ", ";
        }
        assert Ring()[i].next == Ring()[i + 1] == nodes[i];
        cur := cur.next;
        text := text + showKey(cur.key);
        text := text + ": ";
        text := text + showValue(cur.value);
        assert contents[..i + 1][..i] == contents[..i];
      }
      assert contents[..len] == contents;
      text := text + "}";
    }
  }

  function Joined<K, V>(l: seq<Pair<K, V>>, showKey: K -> string, showValue: V -> string): string {
    if l == [] then ""
    else
      var last := l[|l| - 1];
      Joined(l[..|l| - 1], showKey, showValue) + (if |l| > 1 then ", " else "")
      + showKey(last.0) + ": " + showValue(last.1)
  }

  /** No pairs, no text. */
  lemma JoinedNone<K, V>(showKey: K -> string, showValue: V -> string)
    ensures Joined([], showKey, showValue) == ""
  {
  }

  lemma JoinedOne<K, V>(p: Pair<K, V>, showKey: K -> string, showValue: V -> string)
    ensures Joined([p], showKey, showValue) == showKey(p.0) + ": " + showValue(p.1)
  {
    assert [p][..0] == [];
    assert Joined([p][..0], showKey, showValue) == "";
    assert "" + "" + showKey(p.0) == showKey(p.0);
  }

  /** The texts of two lists, the first one first, with a comma between them. */
  lemma {:induction false} JoinedConcat<K, V>(a: seq<Pair<K, V>>, b: seq<Pair<K, V>>,
                                              showKey: K -> string, showValue: V -> string)
    requires a != [] && b != []
    ensures Joined(a + b, showKey, showValue) == Joined(a, showKey, showValue) + ", " + Joined(b, showKey, showValue)
  {
    var init, last := b[..|b| - 1], b[|b| - 1];
    assert (a + b)[..|a + b| - 1] == a + init;
    var piece := showKey(last.0) + ": " + showValue(last.1);
    JoinedLast(a + b, showKey, showValue);
    if init == [] {
      assert a + init == a && b == [last];
      JoinedOne(last, showKey, showValue);
    } else {
      JoinedConcat(a, init, showKey, showValue);
      JoinedLast(b, showKey, showValue);
      Associative(Joined(a, showKey, showValue) + ", ", Joined(init, showKey, showValue), ", " + piece);
    }
  }

  lemma JoinedLast<K, V>(l: seq<Pair<K, V>>, showKey: K -> string, showValue: V -> string)
    requires |l| > 1
    ensures var last := l[|l| - 1];
      Joined(l, showKey, showValue) ==
        Joined(l[..|l| - 1], showKey, showValue) + (", " + (showKey(last.0) + ": " + showValue(last.1)))
  {
    var last, rest := l[|l| - 1], Joined(l[..|l| - 1], showKey, showValue);
    Associative(rest + ", ", showKey(last.0), ": ");
    Associative(rest + ", ", showKey(last.0) + ": ", showValue(last.1));
    Associative(rest, ", ", showKey(last.0) + ": " + showValue(last.1));
  }

  /** A cache that lives through a whole run: the theorems about runs are theorems about the object. */
  method Replay<K(==,0), V(0)>(cap: nat, ops: seq<Op<K, V>>) returns (c: LruCache<K, V>)
    ensures fresh(c) && fresh(c.head) && fresh(c.nodes) && c.Valid()
    ensures Lru(c.contents, c.maxSize) == Run(cap, ops)
  {
    c := new LruCache(cap);
    for n := 0 to |ops|
      invariant fresh(c) && fresh(c.head) && fresh(c.nodes) && c.Valid()
      invariant Lru(c.contents, c.maxSize) == Run(cap, ops[..n])
    {
      assert ops[..n + 1][..n] == ops[..n];
      ghost var before := c.nodes;
      label start:
      c.Perform(ops[n]);
      forall i | 0 <= i < |c.nodes|
        ensures fresh(c.nodes[i])
      {
        assert c.nodes[i] in before || fresh@start(c.nodes[i]);
      }
    }
    assert ops[..|ops|] == ops;
  }

  /**
   The sequence of calls in the documentation of `pop` gives the replies stated there, and leaves a cache whose ring and
   map are out of step.
   */
  method PopsAsDocumented<K(==,0), V(0)>(k: K, other: K, v: V)
      returns (c: LruCache<K, V>, r0: Option<V>, r1: Option<V>, r2: Option<V>, len: nat)
    requires k != other
    ensures r0 == None && r1 == Some(v) && r2 == None && len == 0
    ensures !c.Valid() && c.boxes == map[] && |c.nodes| == 1
  {
    c := new LruCache(2);
    c.Put(k, v);
    OnePut(k, other, v);
    assert Keys(c.contents) == [k];
    KeysDistinct(c.boxes, c.nodes, c.contents);
    assert c.boxes.Keys == {k};
    r0 := c.Pop(other);
    assert c.boxes.Keys == {k};
    r1 := c.Pop(k);
    assert c.boxes.Keys == {};
    r2 := c.Pop(k);
    len := c.Len();
    assert c.nodes[0].key !in c.boxes;
  }

  lemma OnePut<K, V>(k: K, other: K, v: V)
    ensures PutList([], k, v, 2) == [(k, v)] && Find([(k, v)], k) == Some(v)
    ensures k != other ==> Find([(k, v)], other) == None
  {
    assert [(k, v)][1..] == [];
  }
}
