/** The priority dictionary of Master/Python/priodict.py: a dictionary beside a binary
    heap of (value, key) pairs. Changing or deleting an entry leaves its old pair in the
    heap; such stale pairs are dropped when they reach the root, or all at once when the
    heap is rebuilt. */
module PriorityDictionary {
  import opened Wrappers

  type Pair = (real, int)

  /** Comparison of Python tuples. */
  predicate Less(p: Pair, q: Pair) {
    p.0 < q.0 || (p.0 == q.0 && p.1 < q.1)
  }

  predicate LessEq(p: Pair, q: Pair) {
    !Less(q, p)
  }

  function Parent(i: nat): nat
    requires 0 < i
  {
    (i - 1) / 2
  }

  ghost predicate HeapOrdered(h: seq<Pair>) {
    forall i {:trigger Parent(i)} :: 0 < i < |h| ==> LessEq(h[Parent(i)], h[i])
  }

  /** Every live entry has its pair in the heap. */
  ghost predicate Covers(h: seq<Pair>, d: map<int, real>) {
    forall k :: k in d ==> (d[k], k) in h
  }

  /** k holds the least pair of d. */
  ghost predicate Least(d: map<int, real>, k: int) {
    k in d && forall j :: j in d ==> LessEq((d[k], k), (d[j], j))
  }

  lemma {:induction false} RootIsLeast(h: seq<Pair>, i: nat)
    requires HeapOrdered(h) && i < |h|
    ensures LessEq(h[0], h[i])
  {
    if i > 0 {
      RootIsLeast(h, Parent(i));
    }
  }

  /** A live root is the least live pair. */
  lemma LiveRootIsLeast(h: seq<Pair>, d: map<int, real>)
    requires HeapOrdered(h) && Covers(h, d) && h != [] && h[0].1 in d && d[h[0].1] == h[0].0
    ensures Least(d, h[0].1)
  {
    forall j | j in d
      ensures LessEq(h[0], (d[j], j))
    {
      var i :| 0 <= i < |h| && h[i] == (d[j], j);
      RootIsLeast(h, i);
    }
  }

  /** h is in order except that the pair at `hole` may be too large for its children. */
  ghost predicate OrderedAbove(h: seq<Pair>, hole: nat) {
    && (forall i {:trigger Parent(i)} :: 0 < i < |h| && Parent(i) != hole ==> LessEq(h[Parent(i)], h[i]))
    && (0 < hole < |h| ==> forall i {:trigger Parent(i)} :: 0 < i < |h| && Parent(i) == hole ==>
          LessEq(h[Parent(hole)], h[i]))
  }

  /** h is in order except that the pair at `hole` may be too small for its parent. */
  ghost predicate OrderedBelow(h: seq<Pair>, hole: nat) {
    && (forall i {:trigger Parent(i)} :: 0 < i < |h| && i != hole ==> LessEq(h[Parent(i)], h[i]))
    && (0 < hole < |h| ==> forall i {:trigger Parent(i)} :: 0 < i < |h| && Parent(i) == hole ==>
          LessEq(h[Parent(hole)], h[i]))
  }

  function Swap(h: seq<Pair>, i: nat, j: nat): seq<Pair>
    requires i < |h| && j < |h|
  {
    h[i := h[j]][j := h[i]]
  }

  lemma SwapMultiset(h: seq<Pair>, i: nat, j: nat)
    requires i < |h| && j < |h|
    ensures multiset(Swap(h, i, j)) == multiset(h)
  {
  }

  /** Exchanging the hole with its smaller child moves the disorder one level down. */
  lemma SiftDownStep(h: seq<Pair>, hole: nat, child: nat)
    requires hole < child < |h| && Parent(child) == hole && OrderedAbove(h, hole) && Less(h[child], h[hole])
    requires forall i {:trigger Parent(i)} :: 0 < i < |h| && Parent(i) == hole ==> LessEq(h[child], h[i])
    ensures OrderedAbove(Swap(h, hole, child), child)
  {
    var g := Swap(h, hole, child);
    forall i {:trigger Parent(i)} | 0 < i < |g| && Parent(i) != child
      ensures LessEq(g[Parent(i)], g[i])
    {
      assert Parent(i) < i;
      assert i != child && Parent(i) != hole && i != hole ==> g[i] == h[i] && g[Parent(i)] == h[Parent(i)];
    }
    forall i {:trigger Parent(i)} | 0 < i < |g| && Parent(i) == child
      ensures LessEq(g[Parent(child)], g[i])
    {
      assert LessEq(h[Parent(i)], h[i]);
    }
  }

  /** Popping the last pair and putting it at the root leaves only the root out of order. */
  lemma PopToRoot(h: seq<Pair>, n: nat)
    requires HeapOrdered(h) && 1 <= n == |h| - 1
    ensures OrderedAbove(h[..n][0 := h[n]], 0)
    ensures multiset(h[..n][0 := h[n]]) == multiset(h[1..])
  {
    assert h[..n][0 := h[n]] == [h[n]] + h[1..n];
    assert h[1..] == h[1..n] + [h[n]];
  }

  /** One round of sifting down: the smaller child moves into the hole that the last item
      would fill. */
  lemma MoveUp(heap: seq<Pair>, item: Pair, point: nat, child: nat)
    requires point < child < |heap| && Parent(child) == point && OrderedAbove(heap[point := item], point)
    requires Less(heap[child], item)
    requires forall i {:trigger Parent(i)} :: 0 < i < |heap| && Parent(i) == point ==> LessEq(heap[child], heap[i])
    ensures var next := heap[point := heap[child]][child := item];
      OrderedAbove(next, child) && multiset(next) == multiset(heap[point := item])
  {
    hide OrderedAbove;
    var was := heap[point := item];
    SiftDownStep(was, point, child);
    SwapMultiset(was, point, child);
    assert heap[point := heap[child]][child := item] == Swap(was, point, child);
  }

  lemma SiftDownDone(h: seq<Pair>, hole: nat)
    requires OrderedAbove(h, hole)
    requires forall i {:trigger Parent(i)} :: 0 < i < |h| && Parent(i) == hole ==> LessEq(h[hole], h[i])
    ensures HeapOrdered(h)
  {
  }

  /** Exchanging the hole with its parent moves the disorder one level up. */
  lemma SiftUpStep(h: seq<Pair>, hole: nat)
    requires 0 < hole < |h| && OrderedBelow(h, hole) && Less(h[hole], h[Parent(hole)])
    ensures OrderedBelow(Swap(h, Parent(hole), hole), Parent(hole))
  {
    var up := Parent(hole);
    var g := Swap(h, up, hole);
    forall i {:trigger Parent(i)} | 0 < i < |g| && i != up
      ensures LessEq(g[Parent(i)], g[i])
    {
      assert Parent(i) < i;
      assert i != hole ==> LessEq(h[Parent(i)], h[i]);
    }
    if 0 < up {
      forall i {:trigger Parent(i)} | 0 < i < |g| && Parent(i) == up
        ensures LessEq(g[Parent(up)], g[i])
      {
        assert LessEq(h[Parent(up)], h[up]);
        assert i != hole ==> LessEq(h[up], h[i]);
      }
    }
  }

  lemma PushAtEnd(h: seq<Pair>, pair: Pair)
    requires HeapOrdered(h)
    ensures OrderedBelow((h + [pair])[|h| := pair], |h|)
    ensures multiset((h + [pair])[|h| := pair]) == multiset(h) + multiset{pair}
  {
    assert (h + [pair])[|h| := pair] == h + [pair];
    forall i {:trigger Parent(i)} | 0 < i < |h|
      ensures LessEq((h + [pair])[Parent(i)], (h + [pair])[i])
    {
      assert Parent(i) < i;
    }
  }

  lemma SiftUpDone(h: seq<Pair>, hole: nat)
    requires OrderedBelow(h, hole) && (0 < hole < |h| ==> LessEq(h[Parent(hole)], h[hole]))
    ensures HeapOrdered(h)
  {
  }

  /** The smaller child of a node, or an index past the end if it has none. */
  method SmallChild(h: seq<Pair>, point: nat) returns (child: nat)
    ensures point < child && Parent(child) == point
    ensures child < |h| ==> forall i {:trigger Parent(i)} :: 0 < i < |h| && Parent(i) == point ==> LessEq(h[child], h[i])
    ensures child >= |h| ==> forall i {:trigger Parent(i)} :: 0 < i < |h| ==> Parent(i) != point
  {
    child := 2 * point + 1;
    assert forall i {:trigger Parent(i)} :: 0 < i && Parent(i) == point ==> i == child || i == child + 1;
    if child + 1 < |h| && Less(h[child + 1], h[child]) {
      child := child + 1;
    }
  }

  /** Dropping a stale root keeps every live pair. */
  lemma RootDropped(h: seq<Pair>, h': seq<Pair>, d: map<int, real>)
    requires Covers(h, d) && h != [] && (h[0].1 !in d || d[h[0].1] != h[0].0)
    requires multiset(h') == multiset(h[1..])
    ensures Covers(h', d)
  {
    forall k | k in d
      ensures (d[k], k) in h'
    {
      var i :| 0 <= i < |h| && h[i] == (d[k], k);
      assert h[1..][i - 1] == h[i];
      assert (d[k], k) in multiset(h[1..]);
    }
  }

  lemma SomeKey(d: map<int, real>)
    ensures d == map[] || exists k :: k in d
  {
    assert (forall k :: k !in d) ==> d == map[];
  }

  lemma {:induction false} LeastExists(d: map<int, real>)
    requires d != map[]
    ensures exists k :: Least(d, k)
    decreases |d|
  {
    SomeKey(d);
    var k :| k in d;
    var rest := d - {k};
    assert d.Keys == rest.Keys + {k};
    if rest == map[] {
      assert Least(d, k);
    } else {
      LeastExists(rest);
      var j :| Least(rest, j);
      if Less((d[k], k), (d[j], j)) {
        assert Least(d, k);
      } else {
        assert Least(d, j);
      }
    }
  }

  ghost predicate Ascending(s: seq<Pair>) {
    forall i, j :: 0 <= i < j < |s| ==> Less(s[i], s[j])
  }

  /** s lists entries of d, all before those of rest. */
  ghost predicate Listed(s: seq<Pair>, d: map<int, real>, rest: map<int, real>) {
    && Ascending(s) && |s| + |rest| == |d|
    && (forall k :: k in rest ==> k in d && rest[k] == d[k])
    && (forall k :: k in d && k !in rest ==> (d[k], k) in s)
    && (forall i :: 0 <= i < |s| ==> s[i].1 in d && d[s[i].1] == s[i].0)
    && (forall i, k :: 0 <= i < |s| && k in rest ==> Less(s[i], (rest[k], k)))
  }

  lemma ListLeast(s: seq<Pair>, d: map<int, real>, rest: map<int, real>, k: int)
    requires Listed(s, d, rest) && Least(rest, k)
    ensures Listed(s + [(rest[k], k)], d, rest - {k})
  {
    var s', rest' := s + [(rest[k], k)], rest - {k};
    forall j | j in d && j !in rest'
      ensures (d[j], j) in s'
    {
      assert j == k ==> s'[|s|] == (d[j], j);
    }
    forall i, j | 0 <= i < |s'| && j in rest'
      ensures Less(s'[i], (rest'[j], j))
    {
      assert j in rest && LessEq((rest[k], k), (rest[j], j));
    }
  }

  /** The pairs of a dictionary in ascending order. */
  method SortedItems(d: map<int, real>) returns (s: seq<Pair>)
    ensures HeapOrdered(s) && Covers(s, d) && |s| == |d| && Ascending(s)
    ensures forall i :: 0 <= i < |s| ==> s[i].1 in d && d[s[i].1] == s[i].0
  {
    s := [];
    var rest := d;
    while rest != map[]
      invariant Listed(s, d, rest)
      decreases |rest|
    {
      LeastExists(rest);
      var k :| k in rest && forall j :: j in rest ==> LessEq((rest[k], k), (rest[j], j));
      ListLeast(s, d, rest, k);
      s := s + [(rest[k], k)];
      rest := rest - {k};
    }
    SortedIsHeap(s);
  }

  lemma SortedIsHeap(s: seq<Pair>)
    requires Ascending(s)
    ensures HeapOrdered(s)
  {
    forall i {:trigger Parent(i)} | 0 < i < |s|
      ensures LessEq(s[Parent(i)], s[i])
    {
      assert Less(s[Parent(i)], s[i]);
    }
  }

  class PriorityDictionary {
    var dict: map<int, real>
    var heap: seq<Pair>

    ghost predicate Valid()
      reads this
    {
      HeapOrdered(heap) && Covers(heap, dict)
    }

    constructor ()
      ensures Valid() && dict == map[] && heap == []
    {
      dict, heap := map[], [];
    }

    /** Drops the root: the last pair is sifted down from the top. */
    method RemoveRoot()
      requires HeapOrdered(heap) && 2 <= |heap|
      modifies `heap
      ensures HeapOrdered(heap) && multiset(heap) == multiset(old(heap)[1..]) && |heap| == |old(heap)| - 1
    {
      var n := |heap| - 1;
      var lastItem := heap[n];
      PopToRoot(heap, n);
      hide OrderedAbove, HeapOrdered;
      heap := heap[..n];
      var point := 0;
      while true
        invariant |heap| == n && 0 <= point < n
        invariant multiset(heap[point := lastItem]) == multiset(old(heap)[1..])
        invariant OrderedAbove(heap[point := lastItem], point)
        decreases n - point
      {
        var smallChild := SmallChild(heap, point);
        if smallChild >= |heap| || LessEq(lastItem, heap[smallChild]) {
          heap := heap[point := lastItem];
          SiftDownDone(heap, point);
          break;
        }
        MoveUp(heap, lastItem, point, smallChild);
        heap := heap[point := heap[smallChild]];
        point := smallChild;
      }
    }

    /** Adds a pair: it is sifted up from the bottom. */
    method Push(pair: Pair)
      requires HeapOrdered(heap)
      modifies `heap
      ensures HeapOrdered(heap) && multiset(heap) == multiset(old(heap)) + multiset{pair}
    {
      hide OrderedBelow, HeapOrdered;
      PushAtEnd(heap, pair);
      var point := |heap|;
      heap := heap + [pair];
      while point > 0 && Less(pair, heap[Parent(point)])
        invariant |heap| == |old(heap)| + 1 && 0 <= point < |heap|
        invariant multiset(heap[point := pair]) == multiset(old(heap)) + multiset{pair}
        invariant OrderedBelow(heap[point := pair], point)
      {
        var parent := Parent(point);
        ghost var was := heap[point := pair];
        SiftUpStep(was, point);
        SwapMultiset(was, parent, point);
        heap := heap[point := heap[parent]];
        assert heap[parent := pair] == Swap(was, parent, point);
        point := parent;
      }
      heap := heap[point := pair];
      SiftUpDone(heap, point);
    }

    /** `smallest`: None stands for the IndexError on an empty dictionary. */
    method Smallest() returns (r: Option<int>)
      requires Valid()
      modifies `heap
      ensures Valid()
      ensures r == None <==> dict == map[]
      ensures r.Some? ==> Least(dict, r.value) && heap != [] && heap[0] == (dict[r.value], r.value)
    {
      if |dict| == 0 {
        return None;
      }
      SomeKey(dict);
      ghost var live :| live in dict;
      assert (dict[live], live) in heap;
      while heap[0].1 !in dict || dict[heap[0].1] != heap[0].0
        invariant Valid() && heap != []
        decreases |heap|
      {
        ghost var was := heap;
        assert (dict[live], live) in was && was[0] != (dict[live], live);
        RemoveRoot();
        RootDropped(was, heap, dict);
        assert (dict[live], live) in heap;
      }
      LiveRootIsLeast(heap, dict);
      return Some(heap[0].1);
    }

    /** `__setitem__` */
    method Set(key: int, val: real)
      requires Valid()
      modifies this
      ensures Valid() && dict == old(dict)[key := val]
      ensures |old(heap)| > 2 * |dict| ==> |heap| == |dict|
      ensures |old(heap)| <= 2 * |dict| ==> |heap| == |old(heap)| + 1
    {
      dict := dict[key := val];
      if |heap| > 2 * |dict| {
        heap := SortedItems(dict);
      } else {
        ghost var was := heap;
        Push((val, key));
        forall k | k in dict
          ensures (dict[k], k) in heap
        {
          assert (dict[k], k) in multiset(was) + multiset{(val, key)};
        }
      }
    }

    /** `del`, on a key that is present. */
    method Remove(key: int)
      requires Valid() && key in dict
      modifies `dict
      ensures Valid() && dict == old(dict) - {key}
    {
      dict := dict - {key};
    }

    /** The destructive iterator, run to its end: it yields the keys in ascending order of
        their pairs and leaves the dictionary empty. */
    method Drain() returns (keys: seq<int>)
      requires Valid()
      modifies this
      ensures Valid() && dict == map[]
      ensures |keys| == |old(dict)| && forall k :: k in old(dict) <==> k in keys
      ensures forall i, j :: 0 <= i < j < |keys| ==>
        keys[i] in old(dict) && keys[j] in old(dict)
        && Less((old(dict)[keys[i]], keys[i]), (old(dict)[keys[j]], keys[j]))
    {
      keys := [];
      ghost var s: seq<Pair> := [];
      ghost var d := dict;
      while |dict| > 0
        invariant Valid() && Listed(s, d, dict)
        invariant |keys| == |s| && forall i :: 0 <= i < |s| ==> keys[i] == s[i].1
        decreases |dict|
      {
        var x := Smallest();
        ListLeast(s, d, dict, x.value);
        s := s + [(dict[x.value], x.value)];
        keys := keys + [x.value];
        Remove(x.value);
      }
      forall k | k in d
        ensures k in keys
      {
        var i :| 0 <= i < |s| && s[i] == (d[k], k);
        assert keys[i] == k;
      }
    }
  }
}
