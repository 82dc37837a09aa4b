/** The fixed-size hash map of os/sys/hash-map.c. Colliding entries are put into any free
    slot and chained from the slots before them, so chains of different hash codes merge. */
module HashMap {
  import opened Sets

  const NIL: int := -1

  /** A slot; key 0 marks it as unused. */
  datatype Node = Node(key: nat, val: nat, next: int)

  const UNUSED := Node(0, 0, NIL)

  /** The entry count is a byte. */
  function Bump(n: nat): nat {
    if n == 255 then 0 else n + 1
  }

  /** The key is narrowed to eight bits on the way. */
  function Hash(n: nat, key: nat): (pos: nat)
    requires 0 < n
    ensures pos < n
  {
    (key % 256) % n
  }

  // ---------------------------------------------------------------------------
  // Well-formed tables

  ghost function Used(s: seq<Node>): set<nat> {
    set p: nat | p < |s| && s[p].key != 0
  }

  ghost predicate DistinctKeys(s: seq<Node>) {
    forall p, q :: 0 <= p < |s| && 0 <= q < |s| && s[p].key != 0 && s[p].key == s[q].key ==> p == q
  }

  /** Links lead to used slots that were filled later; `rank` is the order of filling, and `clock`
      the next rank. */
  ghost predicate Linked(s: seq<Node>, rank: seq<nat>, clock: nat) {
    && |rank| == |s|
    && forall p :: 0 <= p < |s| ==>
      && rank[p] <= clock
      && (s[p].key == 0 ==> s[p].next == NIL)
      && (s[p].key != 0 ==> rank[p] < clock)
      && (s[p].next != NIL ==> 0 <= s[p].next < |s| && s[s[p].next].key != 0 && rank[p] < rank[s[p].next])
  }

  /** Links lead to later ranks, be their targets used or not. */
  ghost predicate Ranked(s: seq<Node>, rank: seq<nat>, clock: nat) {
    && |rank| == |s|
    && forall p :: 0 <= p < |s| ==>
      && rank[p] <= clock
      && (s[p].next != NIL ==> 0 <= s[p].next < |s| && rank[p] < rank[s[p].next])
  }

  lemma InvRanked(s: seq<Node>, rank: seq<nat>, clock: nat)
    requires Inv(s, rank, clock)
    ensures Ranked(s, rank, clock)
  {
    hide DistinctKeys, Findable, View, Used;
  }

  /** The walk for `key` from slot `a` stops at `b` after `n` links: there is the key, or the end. */
  ghost predicate StopsIn(s: seq<Node>, a: int, key: nat, b: int, n: nat)
    decreases n
  {
    && 0 <= a < |s|
    && if n == 0 then a == b && (s[a].key == key || s[a].next == NIL)
       else s[a].key != key && s[a].next != NIL && StopsIn(s, s[a].next, key, b, n - 1)
  }

  ghost predicate StopsAt(s: seq<Node>, a: int, key: nat, b: int) {
    exists n: nat :: StopsIn(s, a, key, b, n)
  }

  lemma StopsHere(s: seq<Node>, a: int, key: nat)
    requires 0 <= a < |s| && (s[a].key == key || s[a].next == NIL)
    ensures StopsAt(s, a, key, a)
  {
    assert StopsIn(s, a, key, a, 0);
  }

  lemma StopsLater(s: seq<Node>, a: int, key: nat, b: int)
    requires 0 <= a < |s| && s[a].key != key && s[a].next != NIL && StopsAt(s, s[a].next, key, b)
    ensures StopsAt(s, a, key, b)
  {
    var n: nat :| StopsIn(s, s[a].next, key, b, n);
    assert StopsIn(s, a, key, b, n + 1);
  }

  /** Slot `q` is the first unused one from `pos` round to `pos`. */
  ghost predicate FirstUnused(s: seq<Node>, pos: nat, q: nat) {
    && q < |s| && s[q].key == 0
    && (forall p :: pos <= p < |s| && (q < pos || p < q) ==> s[p].key != 0)
    && (q < pos ==> forall p :: 0 <= p < q ==> s[p].key != 0)
  }

  ghost predicate Full(s: seq<Node>) {
    forall p :: 0 <= p < |s| ==> s[p].key != 0
  }

  /** Table `s` with a new entry in slot `q`, and `prev` linked to it. */
  function Appended(s: seq<Node>, prev: nat, q: nat, key: nat, val: nat): seq<Node>
    requires prev < |s| && q < |s|
  {
    var t := s[q := s[q].(key := key, val := val)];
    t[prev := t[prev].(next := q)]
  }

  /** The outcomes of hash_map_insert. */
  datatype Outcome = Outcome(list: seq<Node>, entries: nat, ok: bool)

  /** What hash_map_insert does at the end `b` of the walk. */
  ghost predicate Ends(s: seq<Node>, entries: nat, key: nat, val: nat, b: nat, o: Outcome)
    requires 0 < |s| && b < |s|
  {
    if s[b].key == key then o == Outcome(s[b := s[b].(val := val)], entries, true)
    else if entries >= |s| || Full(s) then o == Outcome(s, entries, false)
    else exists q: nat :: FirstUnused(s, Hash(|s|, key), q) && o == Outcome(Appended(s, b, q, key, val), Bump(entries), true)
  }

  /** What hash_map_insert does to any table in which the walk for the key stops. */
  ghost predicate Inserts(s: seq<Node>, entries: nat, key: nat, val: nat, o: Outcome)
    requires 0 < |s|
  {
    var pos := Hash(|s|, key);
    if s[pos].key == 0 then o == Outcome(s[pos := s[pos].(key := key, val := val)], Bump(entries), true)
    else exists b: nat :: b < |s| && StopsAt(s, pos, key, b) && Ends(s, entries, key, val, b, o)
  }

  /** Following `n` links from `a` leads to `b`. */
  ghost predicate Walk(s: seq<Node>, a: int, b: int, n: nat)
    decreases n
  {
    && 0 <= a < |s|
    && if n == 0 then a == b else Walk(s, s[a].next, b, n - 1)
  }

  ghost predicate Reaches(s: seq<Node>, a: int, b: int) {
    exists n: nat :: Walk(s, a, b, n)
  }

  /** Every entry is on the chain of its hash code. */
  ghost predicate Findable(s: seq<Node>) {
    forall p :: 0 <= p < |s| && s[p].key != 0 ==> Reaches(s, Hash(|s|, s[p].key), p)
  }

  /** The map that a table stores. */
  ghost function View(s: seq<Node>): map<nat, nat>
    requires DistinctKeys(s)
  {
    map p | p in Used(s) :: s[p].key := s[p].val
  }

  ghost predicate Inv(s: seq<Node>, rank: seq<nat>, clock: nat) {
    0 < |s| && Linked(s, rank, clock) && DistinctKeys(s) && Findable(s) && |Used(s)| == |View(s)|
  }

  // ---------------------------------------------------------------------------
  // Chains

  /** A slot that is reached, but is not where we are, is reached from the next one. */
  lemma ReachNext(s: seq<Node>, a: int, b: int)
    requires Reaches(s, a, b) && a != b
    ensures 0 <= a < |s| && s[a].next != NIL && Reaches(s, s[a].next, b)
  {
    var n: nat :| Walk(s, a, b, n);
    assert Walk(s, s[a].next, b, n - 1);
  }

  lemma ReachSelf(s: seq<Node>, a: int)
    requires 0 <= a < |s|
    ensures Reaches(s, a, a)
  {
    assert Walk(s, a, a, 0);
  }

  lemma {:induction false} WalkStep(s: seq<Node>, a: int, b: int, n: nat)
    requires Walk(s, a, b, n) && 0 <= b < |s| && 0 <= s[b].next < |s|
    ensures Walk(s, a, s[b].next, n + 1)
    decreases n
  {
    if n > 0 {
      WalkStep(s, s[a].next, b, n - 1);
    }
  }

  lemma ReachStep(s: seq<Node>, a: int, b: int)
    requires Reaches(s, a, b) && 0 <= b < |s| && 0 <= s[b].next < |s|
    ensures Reaches(s, a, s[b].next)
  {
    var n: nat :| Walk(s, a, b, n);
    WalkStep(s, a, b, n);
  }

  /** `t` has all the links of `s`. */
  ghost predicate Extends(s: seq<Node>, t: seq<Node>) {
    |s| == |t| && forall p :: 0 <= p < |s| && s[p].next != NIL ==> t[p].next == s[p].next
  }

  lemma {:induction false} WalkKept(s: seq<Node>, t: seq<Node>, a: int, b: int, n: nat)
    requires Extends(s, t) && Walk(s, a, b, n)
    ensures Walk(t, a, b, n)
    decreases n
  {
    if n > 0 {
      assert s[a].next != NIL;
      WalkKept(s, t, s[a].next, b, n - 1);
    }
  }

  lemma ReachKept(s: seq<Node>, t: seq<Node>, a: int, b: int)
    requires Extends(s, t) && Reaches(s, a, b)
    ensures Reaches(t, a, b)
  {
    var n: nat :| Walk(s, a, b, n);
    WalkKept(s, t, a, b, n);
  }

  /** A chain never comes back to where it was: each step goes to a later entry. */
  lemma {:induction false} Acyclic(s: seq<Node>, rank: seq<nat>, clock: nat, a: int, b: int, n: nat)
    requires Linked(s, rank, clock) && Walk(s, a, b, n)
    ensures 0 <= b < |s| && rank[a] + n <= rank[b] && n <= clock
    decreases n
  {
    if n > 0 {
      Acyclic(s, rank, clock, s[a].next, b, n - 1);
    }
  }

  // ---------------------------------------------------------------------------
  // Counting

  ghost function Below(n: nat): (r: set<nat>)
    ensures |r| == n && forall p: nat :: p in r <==> p < n
  {
    if n == 0 then {} else Below(n - 1) + {n - 1}
  }

  /** There is an unused slot exactly when fewer than N are used. */
  lemma RoomIff(s: seq<Node>)
    ensures |Used(s)| <= |s|
    ensures |Used(s)| < |s| <==> exists p :: 0 <= p < |s| && s[p].key == 0
  {
    var all := Below(|s|);
    assert Used(s) <= all;
    Subset(Used(s), all);
    if p :| p in all && p !in Used(s) {
      FewerMembers(Used(s), all, p);
    }
    if p :| 0 <= p < |s| && s[p].key == 0 {
      assert p in all && p !in Used(s);
    } else {
      assert Used(s) == all;
    }
  }

  // ---------------------------------------------------------------------------
  // The two changes

  /** Table `s` with a new entry in the unused slot `q`, chained from `prev` unless that is
      the slot itself. */
  function Filled(s: seq<Node>, prev: nat, q: nat, key: nat, val: nat): seq<Node>
    requires prev < |s| && q < |s|
  {
    var t := s[q := s[q].(key := key, val := val)];
    if prev == q then t else t[prev := t[prev].(next := q)]
  }

  /** `q` is where a new entry for `key` may go: at the head of its chain, or anywhere with
      `prev` the last of the chain. */
  ghost predicate Place(s: seq<Node>, prev: nat, q: nat, key: nat) {
    && 0 < |s| && prev < |s| && q < |s| && s[q].key == 0 && s[prev].next == NIL
    && Reaches(s, Hash(|s|, key), prev)
    && (prev == q || s[prev].key != 0)
  }

  ghost predicate Absent(s: seq<Node>, key: nat) {
    key != 0 && forall p :: 0 <= p < |s| ==> s[p].key != key
  }

  lemma FilledLinked(s: seq<Node>, rank: seq<nat>, clock: nat, prev: nat, q: nat, key: nat, val: nat)
    requires Linked(s, rank, clock) && Place(s, prev, q, key) && key != 0
    ensures Linked(Filled(s, prev, q, key, val), rank[q := clock], clock + 1)
    ensures Extends(s, Filled(s, prev, q, key, val))
  {
  }

  lemma FilledFindable(s: seq<Node>, prev: nat, q: nat, key: nat, val: nat)
    requires Findable(s) && Place(s, prev, q, key) && Extends(s, Filled(s, prev, q, key, val))
    ensures Findable(Filled(s, prev, q, key, val))
  {
    var t := Filled(s, prev, q, key, val);
    hide Extends;
    forall p | 0 <= p < |t| && t[p].key != 0 ensures Reaches(t, Hash(|t|, t[p].key), p) {
      if p == q {
        ReachKept(s, t, Hash(|s|, key), prev);
        if prev != q {
          ReachStep(t, Hash(|s|, key), prev);
        }
      } else {
        assert t[p].key == s[p].key;
        ReachKept(s, t, Hash(|s|, s[p].key), p);
      }
    }
  }

  lemma FilledView(s: seq<Node>, prev: nat, q: nat, key: nat, val: nat)
    requires DistinctKeys(s) && Absent(s, key) && prev < |s| && q < |s| && s[q].key == 0
    ensures var t := Filled(s, prev, q, key, val);
      DistinctKeys(t) && Used(t) == Used(s) + {q} && View(t) == View(s)[key := val] && key !in View(s)
  {
    hide View;
    var t := Filled(s, prev, q, key, val);
    assert forall p :: 0 <= p < |s| ==> t[p].key == (if p == q then key else s[p].key);
    assert forall p :: 0 <= p < |s| ==> t[p].val == (if p == q then val else s[p].val);
    assert DistinctKeys(t);
    assert Used(t) == Used(s) + {q};
    NotInView(s, key);
    SameView(s, t, q, key, val);
  }

  lemma ViewSlot(s: seq<Node>, k: nat) returns (p: nat)
    requires DistinctKeys(s) && k in View(s)
    ensures p < |s| && s[p].key == k != 0 && View(s)[k] == s[p].val
  {
    p :| p in Used(s) && s[p].key == k;
  }

  lemma InView(s: seq<Node>, p: nat)
    requires DistinctKeys(s) && p < |s| && s[p].key != 0
    ensures s[p].key in View(s) && View(s)[s[p].key] == s[p].val
  {
    assert p in Used(s);
  }

  lemma NotInView(s: seq<Node>, key: nat)
    requires DistinctKeys(s) && Absent(s, key)
    ensures key !in View(s)
  {
  }

  lemma SameView(s: seq<Node>, t: seq<Node>, q: nat, key: nat, val: nat)
    requires DistinctKeys(s) && DistinctKeys(t) && |s| == |t| && q < |s| && t[q].key == key && t[q].val == val && key != 0
    requires s[q].key == 0 || s[q].key == key
    requires forall p :: 0 <= p < |s| && p != q ==> t[p].key == s[p].key && t[p].val == s[p].val
    ensures View(t) == View(s)[key := val]
  {
    hide View;
    InView(t, q);
    forall k | k in View(t) ensures k in View(s)[key := val] && View(t)[k] == View(s)[key := val][k] {
      var p := ViewSlot(t, k);
      if p != q {
        InView(s, p);
      }
    }
    forall k | k in View(s)[key := val] ensures k in View(t) {
      if k != key {
        var p := ViewSlot(s, k);
        InView(t, p);
      }
    }
  }

  lemma OneMore(m: map<nat, nat>, key: nat, val: nat, u: set<nat>, q: nat)
    requires key !in m && q !in u
    ensures |m[key := val]| == |m| + 1 && |u + {q}| == |u| + 1
  {
    assert m[key := val].Keys == m.Keys + {key};
    assert |m[key := val].Keys| == |m.Keys| + 1;
  }

  lemma SameSize(m: map<nat, nat>, key: nat, val: nat)
    requires key in m
    ensures |m[key := val]| == |m|
  {
    assert m[key := val].Keys == m.Keys;
    assert |m[key := val].Keys| == |m.Keys|;
  }

  /** A new entry keeps the table well-formed and adds just that entry to the map. */
  lemma FilledKeeps(s: seq<Node>, rank: seq<nat>, clock: nat, prev: nat, q: nat, key: nat, val: nat)
    requires Inv(s, rank, clock) && Place(s, prev, q, key) && Absent(s, key)
    ensures var t := Filled(s, prev, q, key, val);
      Inv(t, rank[q := clock], clock + 1) && View(t) == View(s)[key := val] && key !in View(s)
  {
    hide Linked, Findable, View, DistinctKeys, Filled, Extends, Reaches;
    FilledLinked(s, rank, clock, prev, q, key, val);
    FilledFindable(s, prev, q, key, val);
    FilledView(s, prev, q, key, val);
    assert q !in Used(s);
    hide Place, Absent, Used;
    OneMore(View(s), key, val, Used(s), q);
  }

  lemma OverwriteLinked(s: seq<Node>, rank: seq<nat>, clock: nat, p: nat, val: nat)
    requires Linked(s, rank, clock) && p < |s| && s[p].key != 0
    ensures var t := s[p := s[p].(val := val)]; Linked(t, rank, clock) && Extends(s, t)
  {
  }

  lemma OverwriteFindable(s: seq<Node>, p: nat, val: nat)
    requires Findable(s) && p < |s| && s[p].key != 0 && Extends(s, s[p := s[p].(val := val)])
    ensures Findable(s[p := s[p].(val := val)])
  {
    var t := s[p := s[p].(val := val)];
    hide Extends, Reaches;
    forall q | 0 <= q < |t| && t[q].key != 0 ensures Reaches(t, Hash(|t|, t[q].key), q) {
      assert s[q].key == t[q].key;
      ReachKept(s, t, Hash(|s|, s[q].key), q);
    }
  }

  lemma OverwriteView(s: seq<Node>, p: nat, val: nat)
    requires DistinctKeys(s) && p < |s| && s[p].key != 0
    ensures var t := s[p := s[p].(val := val)];
      DistinctKeys(t) && Used(t) == Used(s) && View(t) == View(s)[s[p].key := val] && s[p].key in View(s)
  {
    hide View;
    var t := s[p := s[p].(val := val)];
    assert forall q :: 0 <= q < |s| ==> t[q].key == s[q].key;
    assert DistinctKeys(t);
    assert Used(t) == Used(s);
    InView(s, p);
    SameView(s, t, p, s[p].key, val);
  }

  /** Overwriting a value changes that value only. */
  lemma OverwriteKeeps(s: seq<Node>, rank: seq<nat>, clock: nat, p: nat, val: nat)
    requires Inv(s, rank, clock) && p < |s| && s[p].key != 0
    ensures var t := s[p := s[p].(val := val)];
      Inv(t, rank, clock) && View(t) == View(s)[s[p].key := val] && s[p].key in View(s)
  {
    hide Linked, Findable, View, DistinctKeys, Extends, Used;
    OverwriteLinked(s, rank, clock, p, val);
    OverwriteFindable(s, p, val);
    OverwriteView(s, p, val);
    SameSize(View(s), s[p].key, val);
  }

  /** Putting key 0 into an unused slot leaves it unused. */
  lemma StaysUnused(s: seq<Node>, rank: seq<nat>, clock: nat, p: nat, val: nat)
    requires Inv(s, rank, clock) && p < |s| && s[p].key == 0
    ensures var t := s[p := s[p].(val := val)]; Inv(t, rank, clock) && View(t) == View(s)
  {
    hide Linked, Findable, View, DistinctKeys;
    var t := s[p := s[p].(val := val)];
    assert forall q :: 0 <= q < |s| ==> t[q].key == s[q].key && t[q].next == s[q].next;
    SameLinks(s, t, rank, clock);
    SameKeysFindable(s, t);
    SameKeysView(s, t);
  }

  lemma SameKeysFindable(s: seq<Node>, t: seq<Node>)
    requires |s| == |t| && Findable(s)
    requires forall q :: 0 <= q < |s| ==> t[q].key == s[q].key && t[q].next == s[q].next
    ensures Findable(t)
  {
    hide Reaches;
    forall q | 0 <= q < |t| && t[q].key != 0 ensures Reaches(t, Hash(|t|, t[q].key), q) {
      ReachKept(s, t, Hash(|s|, s[q].key), q);
    }
  }

  lemma SameKeysView(s: seq<Node>, t: seq<Node>)
    requires |s| == |t| && DistinctKeys(s)
    requires forall q :: 0 <= q < |s| ==> t[q].key == s[q].key && (s[q].key != 0 ==> t[q].val == s[q].val)
    ensures DistinctKeys(t) && Used(t) == Used(s) && View(t) == View(s)
  {
    assert DistinctKeys(t);
    hide View;
    forall k | k in View(s) ensures k in View(t) && View(t)[k] == View(s)[k] {
      var q := ViewSlot(s, k);
      InView(t, q);
    }
    forall k | k in View(t) ensures k in View(s) {
      var q := ViewSlot(t, k);
      InView(s, q);
    }
  }

  lemma SameLinks(s: seq<Node>, t: seq<Node>, rank: seq<nat>, clock: nat)
    requires |s| == |t| && Linked(s, rank, clock)
    requires forall q :: 0 <= q < |s| ==> t[q].key == s[q].key && t[q].next == s[q].next
    ensures Linked(t, rank, clock)
  {
  }

  // ---------------------------------------------------------------------------
  // The table

  class Table {
    const list: array<Node>
    var entries: nat
    ghost var rank: seq<nat>
    ghost var clock: nat

    ghost predicate Valid()
      reads this, list
    {
      0 < list.Length <= 255 && entries < 256 && Inv(list[..], rank, clock)
    }

    /** Every chain ends. */
    ghost predicate Safe()
      reads this, list
    {
      0 < list.Length <= 255 && entries < 256 && Ranked(list[..], rank, clock)
    }

    /** The entry count is right. */
    ghost predicate Exact()
      reads this, list
    {
      Valid() && entries == |Map()|
    }

    /** What the entry count has too much. */
    ghost function Excess(): int
      requires Valid()
      reads this, list
    {
      entries - |Map()|
    }

    ghost function Map(): map<nat, nat>
      requires Valid()
      reads this, list
    {
      View(list[..])
    }

    constructor (n: nat)
      requires 0 < n <= 255
      ensures Valid() && Safe() && fresh(list) && list.Length == n && Map() == map[] && Exact()
      ensures forall p :: 0 <= p < n ==> list[p] == UNUSED
    {
      list := new Node[n](_ => UNUSED);
      entries, clock := 0, 0;
      rank := seq(n, _ => 0);
      new;
      Cleared(list[..], rank);
    }

    /** hash_map_clear_table, whatever the table held before. */
    method Clear()
      requires 0 < list.Length <= 255
      modifies this, list
      ensures Valid() && Safe() && Map() == map[] && Exact()
    {
      entries, clock := 0, 0;
      var pos := 0;
      while pos < list.Length
        invariant 0 <= pos <= list.Length && entries == 0 && clock == 0
        invariant forall p :: 0 <= p < pos ==> list[p] == UNUSED
      {
        list[pos] := Node(0, 0, NIL);
        pos := pos + 1;
      }
      rank := seq(list.Length, _ => 0);
      Cleared(list[..], rank);
    }

    /** hash_map_lookup */
    method Lookup(key: nat) returns (val: nat)
      requires Valid()
      ensures key != 0 ==> val == if key in Map() then Map()[key] else 0
      ensures key == 0 ==> val == if list[0].key == 0 then list[0].val else 0
    {
      hide Reaches, Findable, DistinctKeys, View, Hash, Inv;
      ghost var s := list[..];
      ghost var head := Hash(list.Length, key);
      Chains(s, rank, clock, key);
      var node: int := Hash(list.Length, key);
      ghost var first := true;
      while node != NIL
        invariant node == NIL || 0 <= node < |s|
        invariant if first then node == head else node == NIL || s[node].key != 0
        invariant key == 0 && !first ==> s[head].key != 0
        invariant key != 0 ==> forall p :: 0 <= p < |s| && s[p].key == key ==> node != NIL && Reaches(s, node, p)
        decreases if node == NIL then 0 else 1 + clock - rank[node]
      {
        if list[node].key == key {
          if key != 0 {
            InView(s, node);
          }
          return list[node].val;
        }
        forall p | 0 <= p < |s| && key != 0 && s[p].key == key ensures s[node].next != NIL && Reaches(s, s[node].next, p) {
          ReachNext(s, node, p);
        }
        node := list[node].next;
        first := false;
      }
      if key != 0 {
        NotInView(s, key);
      }
      return 0;
    }

    /** The chain walk of hash_map_insert: the slot that holds `key`, or the last one. */
    method Follow(key: nat) returns (node: nat, found: bool)
      requires Safe() && list[Hash(list.Length, key)].key != 0
      ensures node < list.Length && found == (list[node].key == key)
      ensures StopsAt(list[..], Hash(list.Length, key), key, node)
    {
      ghost var s := list[..];
      ghost var head := Hash(list.Length, key);
      node := Hash(list.Length, key);
      hide StopsAt, Hash;
      while true
        invariant node < |s| && forall b :: StopsAt(s, node, key, b) ==> StopsAt(s, head, key, b)
        decreases clock - rank[node]
      {
        if list[node].key == key {
          StopsHere(s, node, key);
          return node, true;
        }
        if list[node].next == NIL {
          StopsHere(s, node, key);
          return node, false;
        }
        forall b | StopsAt(s, s[node].next, key, b) ensures StopsAt(s, head, key, b) {
          StopsLater(s, node, key, b);
        }
        node := list[node].next;
      }
    }

    /** The searches of hash_map_insert for an unused slot, from `pos` round to `pos`. */
    method FindUnused(pos: nat) returns (q: nat, found: bool)
      requires pos < list.Length
      ensures if found then FirstUnused(list[..], pos, q) else Full(list[..])
    {
      q := pos;
      while q < list.Length
        invariant pos <= q <= list.Length
        invariant forall p :: pos <= p < q ==> list[p].key != 0
      {
        if list[q].key == 0 {
          return q, true;
        }
        q := q + 1;
      }
      q := 0;
      while q < pos
        invariant 0 <= q <= pos
        invariant forall p :: 0 <= p < q ==> list[p].key != 0
      {
        if list[q].key == 0 {
          return q, true;
        }
        q := q + 1;
      }
      return q, false;
    }

    /** hash_map_insert, on any table whose chains end. A well-formed one stays so unless key 0 is
        appended to a chain. */
    method Insert(key: nat, val: nat) returns (ok: bool)
      requires Safe()
      modifies this, list
      ensures Inserts(old(list[..]), old(entries), key, val, Outcome(list[..], entries, ok))
      ensures old(Valid()) ==> Safe()
      ensures old(Valid()) && (key != 0 || old(HeadUnused(list[..], 0)) || !ok) ==> Valid()
      ensures old(Valid()) && key != 0 ==>
        (ok <==> key in old(Map()) || old(HeadUnused(list[..], key))
                 || (old(entries) < list.Length && |old(Map())| < list.Length))
      ensures old(Valid()) && key != 0 ==> Map() == if ok then old(Map())[key := val] else old(Map())
      ensures old(Valid()) && key != 0 && old(entries) < 255 ==> Excess() == old(Excess())
      ensures old(Valid()) && key != 0 && old(Exact()) ==> Exact() && (ok <==> key in old(Map()) || |old(Map())| < list.Length)
      ensures old(Valid()) && key == 0 && old(HeadUnused(list[..], 0)) ==>
        ok && Map() == old(Map()) && (old(entries) < 255 ==> Excess() == old(Excess()) + 1)
      ensures old(Valid()) && key == 0 && !old(HeadUnused(list[..], 0)) ==>
        (ok <==> old(entries) < list.Length && |old(Map())| < list.Length)
      ensures old(Valid()) && !ok ==> Map() == old(Map()) && entries == old(entries)
    {
      hide Inv, Ranked, View, DistinctKeys, Hash, StopsAt;
      ghost var s, e, r, c := list[..], entries, rank, clock;
      var pos := Hash(list.Length, key);
      if list[pos].key == 0 {
        list[pos] := list[pos].(key := key, val := val);
        entries := Bump(entries);
        ok := true;
        assert list[..] == s[pos := s[pos].(key := key, val := val)];
      } else {
        var prev, found := Follow(key);
        if found {
          list[prev] := list[prev].(val := val);
          ok := true;
          assert list[..] == s[prev := s[prev].(val := val)];
        } else if entries >= list.Length {
          ok := false;
        } else {
          var q, room := FindUnused(pos);
          if room {
            list[q] := list[q].(key := key, val := val);
            list[prev] := list[prev].(next := q);
            entries := Bump(entries);
            ok := true;
            assert list[..] == Appended(s, prev, q, key, val);
          } else {
            ok := false;
          }
        }
        assert Ends(s, e, key, val, prev, Outcome(list[..], entries, ok));
      }
      if Inv(s, r, c) {
        rank, clock := InsertsKeeps(s, r, c, e, key, val, Outcome(list[..], entries, ok));
      }
    }
  }

  /** Where the walk stops is reached, and if the key is not there it is nowhere. */
  lemma {:induction false} StopsReaches(s: seq<Node>, a: int, key: nat, b: int, n: nat)
    requires StopsIn(s, a, key, b, n) && 0 <= b < |s|
    ensures Reaches(s, a, b) && (s[b].key == key || s[b].next == NIL)
    ensures s[b].key != key ==> forall p :: 0 <= p < |s| && Reaches(s, a, p) ==> s[p].key != key
    decreases n
  {
    hide Reaches;
    if n == 0 {
      ReachSelf(s, a);
    } else {
      StopsReaches(s, s[a].next, key, b, n - 1);
      ReachEarlier(s, a, b);
    }
    forall p | 0 <= p < |s| && Reaches(s, a, p) && s[b].key != key ensures s[p].key != key {
      if p != a {
        ReachNext(s, a, p);
      }
    }
  }

  lemma ReachEarlier(s: seq<Node>, a: int, b: int)
    requires 0 <= a < |s| && Reaches(s, s[a].next, b)
    ensures Reaches(s, a, b)
  {
    var n: nat :| Walk(s, s[a].next, b, n);
    assert Walk(s, a, b, n + 1);
  }

  /** What an insertion means for the map. */
  ghost predicate Means(s: seq<Node>, entries: nat, key: nat, val: nat, o: Outcome)
    requires DistinctKeys(s)
  {
    var m, room := View(s), entries < |s| && |View(s)| < |s|;
    && (!o.ok ==> o.list == s && o.entries == entries)
    && (HeadUnused(s, key) ==> |m| < |s| && (key != 0 ==> key !in m))
    && (key != 0 ==> DistinctKeys(o.list) && View(o.list) == if o.ok then m[key := val] else m)
    && (key != 0 ==> (o.ok <==> key in m || HeadUnused(s, key) || room))
    && (key != 0 ==> o.entries == if o.ok && key !in m then Bump(entries) else entries)
    && (key == 0 && HeadUnused(s, 0) ==> o.ok && DistinctKeys(o.list) && View(o.list) == m && o.entries == Bump(entries))
    && (key == 0 && !HeadUnused(s, 0) ==> (o.ok <==> room))
  }

  lemma {:induction false} InsertsKeeps(s: seq<Node>, rank: seq<nat>, clock: nat, entries: nat, key: nat, val: nat, o: Outcome)
    returns (rank': seq<nat>, clock': nat)
    requires Inv(s, rank, clock) && |s| <= 255 && entries < 256 && Inserts(s, entries, key, val, o)
    ensures |o.list| == |s| && Ranked(o.list, rank', clock')
    ensures key != 0 || HeadUnused(s, 0) || !o.ok ==> Inv(o.list, rank', clock')
    ensures Means(s, entries, key, val, o)
  {
    hide Inv, Ranked, View, DistinctKeys, Hash, StopsAt, Means, Ends;
    var pos := Hash(|s|, key);
    if s[pos].key == 0 {
      rank', clock' := FirstKeeps(s, rank, clock, entries, key, val, o);
    } else {
      var b: nat :| b < |s| && StopsAt(s, pos, key, b) && Ends(s, entries, key, val, b, o);
      rank', clock' := EndsKeeps(s, rank, clock, entries, key, val, b, o);
    }
  }

  lemma FirstKeeps(s: seq<Node>, rank: seq<nat>, clock: nat, entries: nat, key: nat, val: nat, o: Outcome)
    returns (rank': seq<nat>, clock': nat)
    requires Inv(s, rank, clock) && s[Hash(|s|, key)].key == 0
    requires o == Outcome(s[Hash(|s|, key) := s[Hash(|s|, key)].(key := key, val := val)], Bump(entries), true)
    ensures |o.list| == |s| && Ranked(o.list, rank', clock') && Inv(o.list, rank', clock')
    ensures Means(s, entries, key, val, o)
  {
    hide Inv, Ranked, View, DistinctKeys, Hash, Absent, Place, Used;
    var pos := Hash(|s|, key);
    HashZero(|s|);
    Counted(s, rank, clock);
    rank', clock' := rank, clock;
    if key != 0 {
      HeadIsFree(s, rank, clock, key);
      FilledKeeps(s, rank, clock, pos, pos, key, val);
      rank', clock' := rank[pos := clock], clock + 1;
    } else {
      StaysUnused(s, rank, clock, pos, val);
    }
    InvRanked(o.list, rank', clock');
    Counted(o.list, rank', clock');
  }

  lemma EndsKeeps(s: seq<Node>, rank: seq<nat>, clock: nat, entries: nat, key: nat, val: nat, b: nat, o: Outcome)
    returns (rank': seq<nat>, clock': nat)
    requires Inv(s, rank, clock) && s[Hash(|s|, key)].key != 0 && b < |s| && StopsAt(s, Hash(|s|, key), key, b)
    requires Ends(s, entries, key, val, b, o)
    ensures |o.list| == |s| && Ranked(o.list, rank', clock') && (key != 0 || !o.ok ==> Inv(o.list, rank', clock'))
    ensures Means(s, entries, key, val, o)
  {
    hide Inv, Ranked, View, DistinctKeys, Hash, Absent, Place, Used, Reaches, StopsAt;
    HashZero(|s|);
    rank', clock' := rank, clock;
    StopsAtEnd(s, rank, clock, key, b);
    Counted(s, rank, clock);
    InvRanked(s, rank, clock);
    if s[b].key == key {
      OverwriteKeeps(s, rank, clock, b, val);
      InvRanked(o.list, rank, clock);
      Counted(o.list, rank, clock);
    } else {
      if key != 0 {
        NotInView(s, key);
      }
      if !(entries >= |s| || Full(s)) {
        var q: nat :| FirstUnused(s, Hash(|s|, key), q) && o == Outcome(Appended(s, b, q, key, val), Bump(entries), true);
        assert Appended(s, b, q, key, val) == Filled(s, b, q, key, val);
        if key != 0 {
          FilledKeeps(s, rank, clock, b, q, key, val);
          InvRanked(o.list, rank[q := clock], clock + 1);
          Counted(o.list, rank[q := clock], clock + 1);
        } else {
          ZeroRanked(s, rank, clock, b, q, val);
        }
        rank', clock' := rank[q := clock], clock + 1;
      }
    }
  }

  /** In a well-formed table the walk stops at a used slot, and there is the key or nowhere. */
  lemma StopsAtEnd(s: seq<Node>, rank: seq<nat>, clock: nat, key: nat, b: nat)
    requires Inv(s, rank, clock) && s[Hash(|s|, key)].key != 0 && b < |s| && StopsAt(s, Hash(|s|, key), key, b)
    ensures s[b].key != 0 && Reaches(s, Hash(|s|, key), b)
    ensures s[b].key != key ==> s[b].next == NIL && (key != 0 ==> Absent(s, key))
    ensures s[b].key != key && key != 0 ==> forall q :: 0 <= q < |s| && s[q].key == 0 ==> Place(s, b, q, key)
  {
    hide View, DistinctKeys, Hash, Used, Reaches;
    var head := Hash(|s|, key);
    var n: nat :| StopsIn(s, head, key, b, n);
    StopsReaches(s, head, key, b, n);
    ReachedIsUsed(s, rank, clock, head, b);
  }

  lemma ReachedIsUsed(s: seq<Node>, rank: seq<nat>, clock: nat, a: int, b: int)
    requires Linked(s, rank, clock) && Reaches(s, a, b) && 0 <= a < |s| && s[a].key != 0
    ensures 0 <= b < |s| && s[b].key != 0
  {
    var n: nat :| Walk(s, a, b, n);
    WalkIsUsed(s, rank, clock, a, b, n);
  }

  lemma {:induction false} WalkIsUsed(s: seq<Node>, rank: seq<nat>, clock: nat, a: int, b: int, n: nat)
    requires Linked(s, rank, clock) && Walk(s, a, b, n) && 0 <= a < |s| && s[a].key != 0
    ensures 0 <= b < |s| && s[b].key != 0
    decreases n
  {
    if n > 0 {
      WalkIsUsed(s, rank, clock, s[a].next, b, n - 1);
    }
  }

  lemma ZeroRanked(s: seq<Node>, rank: seq<nat>, clock: nat, b: nat, q: nat, val: nat)
    requires Inv(s, rank, clock) && b < |s| && q < |s| && s[b].key != 0 && s[q].key == 0
    ensures Ranked(Appended(s, b, q, 0, val), rank[q := clock], clock + 1)
  {
    hide View, DistinctKeys, Findable, Used;
  }

  lemma Collisions()
    ensures Hash(2, 0) == Hash(2, 2) == Hash(2, 4) == 0
  {
  }

  lemma SameHead(s: seq<Node>)
    requires |s| == 2
    ensures HeadUnused(s, 0) == HeadUnused(s, 2) == HeadUnused(s, 4)
  {
    Collisions();
  }

  /** One insertion of key 0 is enough for a table of two slots to refuse an entry while only one
      is stored; the count stays too high until the table is cleared. */
  method RefusedTooEarly() returns (table: Table, ok: bool)
    ensures table.Valid() && table.list.Length == 2 && table.Map() == map[2 := 5] && !ok && table.Excess() == 1
  {
    Collisions();
    hide Inv, View, Hash;
    table := new Table(2);
    assert HeadUnused(table.list[..], 0) && table.entries == 0;
    var zero := table.Insert(0, 7);
    assert table.Map() == map[] && table.entries == 1;
    SameHead(table.list[..]);
    var two := table.Insert(2, 5);
    assert table.Map() == map[2 := 5] && |table.Map()| == 1 && table.entries == 2;
    SameHead(table.list[..]);
    ok := table.Insert(4, 6);
  }

  lemma Chains(s: seq<Node>, rank: seq<nat>, clock: nat, key: nat)
    requires Inv(s, rank, clock)
    ensures DistinctKeys(s) && |rank| == |s| && Linked(s, rank, clock) && Hash(|s|, 0) == 0
    ensures forall p :: 0 <= p < |s| && key != 0 && s[p].key == key ==> Reaches(s, Hash(|s|, key), p)
    ensures key == 0 ==> key !in View(s)
  {
    hide Reaches;
    HashZero(|s|);
    hide Hash;
  }

  lemma HashZero(n: nat)
    requires 0 < n
    ensures Hash(n, 0) == 0
  {
    assert 0 % n == 0;
  }

  /** The slot that a key belongs to is unused. */
  ghost predicate HeadUnused(s: seq<Node>, key: nat) {
    0 < |s| && s[Hash(|s|, key)].key == 0
  }

  lemma Counted(s: seq<Node>, rank: seq<nat>, clock: nat)
    requires Inv(s, rank, clock)
    ensures DistinctKeys(s) && |View(s)| <= |s| == |rank|
    ensures |View(s)| < |s| <==> exists p :: 0 <= p < |s| && s[p].key == 0
  {
    RoomIff(s);
  }

  lemma Cleared(s: seq<Node>, rank: seq<nat>)
    requires 0 < |s| == |rank| && forall p :: 0 <= p < |s| ==> s[p] == UNUSED && rank[p] == 0
    ensures Inv(s, rank, 0) && Ranked(s, rank, 0) && View(s) == map[]
  {
    assert Used(s) == {};
  }

  /** Key 0 cannot be stored: wherever it is put, the used slots stay the same. */
  lemma ZeroKeyMiscounts(s: seq<Node>, prev: nat, q: nat, val: nat)
    requires prev < |s| && q < |s| && s[q].key == 0
    ensures Used(Filled(s, prev, q, 0, val)) == Used(s)
    ensures prev != q ==> Filled(s, prev, q, 0, val)[prev].next == q && Filled(s, prev, q, 0, val)[q].key == 0
  {
    var t := Filled(s, prev, q, 0, val);
    assert forall p :: 0 <= p < |s| ==> t[p].key == s[p].key;
  }

  /** When the head of the chain is unused, no slot can hold the key. */
  lemma HeadIsFree(s: seq<Node>, rank: seq<nat>, clock: nat, key: nat)
    requires Inv(s, rank, clock) && key != 0 && s[Hash(|s|, key)].key == 0
    ensures Absent(s, key) && Place(s, Hash(|s|, key), Hash(|s|, key), key)
  {
    var pos := Hash(|s|, key);
    ReachSelf(s, pos);
    forall p | 0 <= p < |s| ensures s[p].key != key {
      if s[p].key == key {
        ReachNext(s, pos, p);
      }
    }
  }

  // ---------------------------------------------------------------------------
  // What key 0 does to the chains

  /** A chain comes back to where it was. */
  ghost predicate Loops(s: seq<Node>) {
    exists p: nat, n: nat :: 0 < n && Walk(s, p, p, n)
  }

  /** Looking for the key does not end. */
  ghost predicate NeverStops(s: seq<Node>, a: int, key: nat) {
    forall b, n: nat :: !StopsIn(s, a, key, b, n)
  }

  lemma {:induction false} RankedWalk(s: seq<Node>, rank: seq<nat>, clock: nat, a: int, b: int, n: nat)
    requires Ranked(s, rank, clock) && Walk(s, a, b, n)
    ensures 0 <= a < |s| && 0 <= b < |s| && rank[a] + n <= rank[b]
    decreases n
  {
    if n > 0 {
      RankedWalk(s, rank, clock, s[a].next, b, n - 1);
    }
  }

  lemma RankedNeverLoops(s: seq<Node>, rank: seq<nat>, clock: nat)
    requires Ranked(s, rank, clock)
    ensures !Loops(s)
  {
    if p: nat, n: nat :| 0 < n && Walk(s, p, p, n) {
      RankedWalk(s, rank, clock, p, p, n);
    }
  }

  lemma {:induction false} StopsOnce(s: seq<Node>, a: int, key: nat, b: int, n: nat, c: int, m: nat)
    requires StopsIn(s, a, key, b, n) && StopsIn(s, a, key, c, m)
    ensures b == c
    decreases n
  {
    if n > 0 && m > 0 {
      StopsOnce(s, s[a].next, key, b, n - 1, c, m - 1);
    }
  }

  /** The walk for key 0 along a chain, and the walks for other absent keys once key 0 is at its
      end and once the slot there is linked to itself. */
  lemma {:induction false} ChainWithZero(s: seq<Node>, a: int, b: nat, n: nat, q: nat, v: nat, k: nat)
    requires StopsIn(s, a, 0, b, n) && b < |s| && s[b].next == NIL && q < |s| && s[q].key == 0 && s[q].next == NIL && b != q
    requires Absent(s, k)
    ensures StopsIn(Appended(s, b, q, 0, v), a, k, q, n + 1)
    decreases n
  {
    if n > 0 {
      ChainWithZero(s, s[a].next, b, n - 1, q, v, k);
    } else {
      assert StopsIn(Appended(s, b, q, 0, v), q, k, q, 0);
    }
  }

  lemma {:induction false} ChainOnward(s: seq<Node>, a: int, q: nat, n: nat, k: nat, w: nat)
    requires StopsIn(s, a, k, q, n) && q < |s| && s[q].next == NIL
    ensures Walk(Appended(s, q, q, k, w), a, q, n)
    decreases n
  {
    if n > 0 {
      ChainOnward(s, s[a].next, q, n - 1, k, w);
    }
  }

  lemma {:induction false} RoundAndRound(s: seq<Node>, a: int, q: nat, n: nat, key: nat, b: int, m: nat)
    requires q < |s| && s[q].next == q && Walk(s, a, q, n) && forall p :: 0 <= p < |s| ==> s[p].key != key
    ensures !StopsIn(s, a, key, b, m)
    decreases m
  {
    if m == 0 {
      if n > 0 {
        assert 0 <= s[a].next < |s| by {
          assert Walk(s, s[a].next, q, n - 1);
        }
      }
    } else if n > 0 {
      RoundAndRound(s, s[a].next, q, n - 1, key, b, m - 1);
    } else {
      RoundAndRound(s, q, q, 0, key, b, m - 1);
    }
  }

  lemma FirstUnusedIsOne(s: seq<Node>, t: seq<Node>, pos: nat, q: nat, r: nat)
    requires |s| == |t| && (forall p :: 0 <= p < |s| ==> t[p].key == s[p].key) && pos <= |s|
    requires FirstUnused(s, pos, q) && FirstUnused(t, pos, r)
    ensures q == r
  {
  }

  /** Key 0 at a used head, with two entries' room in the count: it goes to the end of the chain,
      into the slot that is found free again for the next key of the chain. */
  lemma ZeroAppended(s: seq<Node>, rank: seq<nat>, clock: nat, entries: nat, v: nat, o: Outcome)
    returns (b: nat, n: nat, q: nat)
    requires Inv(s, rank, clock) && s[0].key != 0 && entries < |s| <= 255 && !Full(s) && Inserts(s, entries, 0, v, o)
    ensures b < |s| && StopsIn(s, 0, 0, b, n) && s[b].key != 0 && s[b].next == NIL && FirstUnused(s, 0, q) && s[q].next == NIL
    ensures o == Outcome(Appended(s, b, q, 0, v), entries + 1, true)
  {
    hide View, DistinctKeys, Findable, Used, Hash, StopsIn, Reaches;
    HashZero(|s|);
    b :| b < |s| && StopsAt(s, 0, 0, b) && Ends(s, entries, 0, v, b, o);
    StopsAtEnd(s, rank, clock, 0, b);
    n :| StopsIn(s, 0, 0, b, n);
    q :| FirstUnused(s, 0, q) && o == Outcome(Appended(s, b, q, 0, v), Bump(entries), true);
  }

  /** Then the next new key of that chain links the slot to itself: looking for any key that is
      not there goes round for ever. */
  lemma ZeroThenLoop(s: seq<Node>, rank: seq<nat>, clock: nat, entries: nat, v: nat, o: Outcome,
                     k: nat, w: nat, o': Outcome, q: nat)
    requires Inv(s, rank, clock) && s[0].key != 0 && entries + 1 < |s| <= 255 && FirstUnused(s, 0, q)
    requires |o.list| == |s| && Inserts(s, entries, 0, v, o)
    requires Hash(|s|, k) == 0 && Absent(s, k) && Inserts(o.list, o.entries, k, w, o')
    ensures |o'.list| == |s| && o'.list[q] == Node(k, w, q) && Reaches(o'.list, 0, q) && Loops(o'.list)
    ensures forall x :: x != k && Absent(s, x) ==> NeverStops(o'.list, 0, x)
  {
    hide Inv, Hash, StopsIn, Reaches, Walk, Loops, Inserts, NeverStops, FirstUnused, Full;
    FirstIsUnused(s, q);
    var b, n, r := ZeroAppended(s, rank, clock, entries, v, o);
    FirstUnusedIsOne(s, s, 0, q, r);
    ChainWithZero(s, 0, b, n, q, v, k);
    hide Absent;
    SecondAppended(s, o.list, entries + 1, q, n + 1, k, w, o');
    hide Appended;
    forall x | x != k && Absent(s, x) ensures NeverStops(o'.list, 0, x) {
      RoundFor(s, o'.list, q, n + 1, k, x);
    }
  }

  lemma FirstIsUnused(s: seq<Node>, q: nat)
    requires FirstUnused(s, 0, q)
    ensures q < |s| && s[q].key == 0 && !Full(s)
  {
  }

  lemma SecondAppended(s: seq<Node>, t: seq<Node>, entries: nat, q: nat, n: nat, k: nat, w: nat, o: Outcome)
    requires 0 < |s| == |t| && (forall p :: 0 <= p < |s| ==> t[p].key == s[p].key) && entries < |t|
    requires t[0].key != 0 && FirstUnused(s, 0, q) && t[q].next == NIL && StopsIn(t, 0, k, q, n)
    requires Hash(|t|, k) == 0 && k != 0 && Inserts(t, entries, k, w, o)
    ensures o.list == Appended(t, q, q, k, w) && o.list[q].next == q
    ensures Walk(o.list, 0, q, n) && Reaches(o.list, 0, q) && Loops(o.list)
  {
    hide Hash, StopsIn, Reaches, Walk, Loops;
    var c: nat :| c < |t| && StopsAt(t, 0, k, c) && Ends(t, entries, k, w, c, o);
    var m: nat :| StopsIn(t, 0, k, c, m);
    StopsOnce(t, 0, k, c, m, q, n);
    var r: nat :| FirstUnused(t, 0, r) && o == Outcome(Appended(t, q, r, k, w), Bump(entries), true);
    FirstUnusedIsOne(s, t, 0, q, r);
    hide FirstUnused;
    ChainOnward(t, 0, q, n, k, w);
    SelfLinked(o.list, q, n);
  }

  lemma RoundFor(s: seq<Node>, u: seq<Node>, q: nat, n: nat, k: nat, x: nat)
    requires |u| == |s| && q < |s| && u[q].next == q && u[q].key == k != x && Walk(u, 0, q, n) && Absent(s, x)
    requires forall p :: 0 <= p < |s| && p != q ==> u[p].key == s[p].key
    ensures NeverStops(u, 0, x)
  {
    assert forall p :: 0 <= p < |s| ==> u[p].key != x;
    forall y, l: nat ensures !StopsIn(u, 0, x, y, l) {
      RoundAndRound(u, 0, q, n, x, y, l);
    }
  }

  lemma SelfLinked(s: seq<Node>, q: nat, n: nat)
    requires q < |s| && s[q].next == q && Walk(s, 0, q, n)
    ensures Reaches(s, 0, q) && Loops(s)
  {
    assert Walk(s, q, q, 0);
    assert Walk(s, q, q, 1);
  }

  /** Some insertions of 16-bit keys lead to a chain that comes back to where it was. */
  ghost predicate LoopAfter(s: seq<Node>, entries: nat, n: nat)
    requires 0 < |s|
    decreases n
  {
    if n == 0 then Loops(s)
    else
      exists key: nat, val: nat, o: Outcome :: key < 65536 && Inserts(s, entries, key, val, o) &&
        |o.list| == |s| && LoopAfter(o.list, o.entries, n - 1)
  }

  ghost predicate OthersUsed(s: seq<Node>, z: int) {
    0 <= z < |s| && forall p :: 0 <= p < |s| && p != z ==> s[p].key != 0
  }

  /** All slots are used, or all but one and the count keeps it from being linked. */
  ghost predicate Closed(s: seq<Node>, entries: nat, rank: seq<nat>, clock: nat) {
    && 0 < |s| <= 255 && s[0].key != 0 && Ranked(s, rank, clock)
    && (Full(s) || (entries == |s| && exists z :: OthersUsed(s, z)))
  }

  lemma ClosedStep(s: seq<Node>, entries: nat, rank: seq<nat>, clock: nat, key: nat, val: nat, o: Outcome)
    requires Closed(s, entries, rank, clock) && Inserts(s, entries, key, val, o)
    ensures Closed(o.list, o.entries, rank, clock) && |o.list| == |s|
  {
    hide StopsAt;
    HashZero(|s|);
    hide Hash;
    var pos := Hash(|s|, key);
    if s[pos].key == 0 {
      var z :| OthersUsed(s, z);
      assert pos == z && key != 0;
      assert Full(o.list);
    } else {
      var b: nat :| b < |s| && StopsAt(s, pos, key, b) && Ends(s, entries, key, val, b, o);
      if s[b].key == key {
        ValueOnly(s, b, val);
      }
    }
  }

  lemma ValueOnly(s: seq<Node>, b: nat, val: nat)
    requires b < |s|
    ensures var t := s[b := s[b].(val := val)];
      |t| == |s| && (Full(s) ==> Full(t)) && forall z :: OthersUsed(s, z) ==> OthersUsed(t, z)
  {
  }

  lemma {:induction false} ClosedNeverLoops(s: seq<Node>, entries: nat, rank: seq<nat>, clock: nat, n: nat)
    requires Closed(s, entries, rank, clock)
    ensures !LoopAfter(s, entries, n)
    decreases n
  {
    RankedNeverLoops(s, rank, clock);
    if n > 0 {
      hide Closed, Loops, Inserts;
      forall key: nat, val: nat, o: Outcome | |o.list| == |s| && Inserts(s, entries, key, val, o)
        ensures !LoopAfter(o.list, o.entries, n - 1)
      {
        ClosedStep(s, entries, rank, clock, key, val, o);
        ClosedNeverLoops(o.list, o.entries, rank, clock, n - 1);
      }
    }
  }

  /** The keys 256, 512, ... all belong to slot 0. */
  ghost function Multiples(n: nat): (r: set<nat>)
    ensures |r| == n && forall k :: k in r ==> k % 256 == 0 && 0 < k <= 256 * n
  {
    if n == 0 then {} else Multiples(n - 1) + {256 * n}
  }

  /** With a free slot there is a new 16-bit key that belongs to slot 0. */
  lemma FreshKey(s: seq<Node>, rank: seq<nat>, clock: nat) returns (k: nat)
    requires Inv(s, rank, clock) && |View(s)| < |s| <= 255
    ensures 0 < k < 65536 && Hash(|s|, k) == 0 && Absent(s, k)
  {
    hide View, Findable, Linked, Hash;
    var keys := Multiples(|s|);
    if keys <= View(s).Keys {
      Subset(keys, View(s).Keys);
      assert false;
    }
    k :| k in keys && k !in View(s);
    MultipleHash(|s|, k);
    forall p | 0 <= p < |s| ensures s[p].key != k {
      if s[p].key == k {
        InView(s, p);
      }
    }
  }

  lemma MultipleHash(n: nat, k: nat)
    requires 0 < n && k % 256 == 0
    ensures Hash(n, k) == 0
  {
    assert 0 % n == 0;
  }

  lemma OnlyUnused(s: seq<Node>, q: nat)
    requires |Used(s)| + 1 == |s| && q < |s| && s[q].key == 0
    ensures OthersUsed(s, q)
  {
    forall p | 0 <= p < |s| && p != q ensures s[p].key != 0 {
      if s[p].key == 0 {
        TwoUnused(s, p, q);
      }
    }
  }

  lemma TwoUnused(s: seq<Node>, p: nat, q: nat)
    requires p < |s| && q < |s| && p != q && s[p].key == 0 && s[q].key == 0
    ensures |Used(s)| + 2 <= |s|
  {
    var all := Below(|s|);
    FewerMembers(Used(s), all - {p}, q);
    FewerMembers(all - {p}, all, p);
  }

  lemma ZeroCloses(s: seq<Node>, rank: seq<nat>, clock: nat, entries: nat, v: nat, o: Outcome)
    requires Inv(s, rank, clock) && s[0].key != 0 && entries == |View(s)| && entries + 1 == |s| <= 255
    requires Inserts(s, entries, 0, v, o)
    ensures exists rank', clock' :: Closed(o.list, o.entries, rank', clock')
  {
    hide Ranked, Linked, Findable, Hash, Used, StopsIn, Inserts, View;
    Counted(s, rank, clock);
    RoomIff(s);
    var b, n, q := ZeroAppended(s, rank, clock, entries, v, o);
    OnlyUnused(s, q);
    ZeroRanked(s, rank, clock, b, q, v);
    assert OthersUsed(o.list, q);
    assert Closed(o.list, o.entries, rank[q := clock], clock + 1);
  }

  lemma ZeroOpens(s: seq<Node>, rank: seq<nat>, clock: nat, entries: nat, v: nat, o: Outcome)
    requires Inv(s, rank, clock) && s[0].key != 0 && entries == |View(s)| && entries + 1 < |s| <= 255
    requires Inserts(s, entries, 0, v, o)
    ensures |o.list| == |s| && LoopAfter(o.list, o.entries, 1)
  {
    hide Inv, Hash, StopsIn, Absent, Loops, Inserts, View;
    Counted(s, rank, clock);
    var k := FreshKey(s, rank, clock);
    var b, n, q := ZeroAppended(s, rank, clock, entries, v, o);
    ChainWithZero(s, 0, b, n, q, v, k);
    var t := o.list;
    var o' := Outcome(Appended(t, q, q, k, 0), Bump(o.entries), true);
    AppendsAt(t, o.entries, q, n + 1, k, o');
    ZeroThenLoop(s, rank, clock, entries, v, o, k, 0, o', q);
    assert LoopAfter(o'.list, o'.entries, 0);
  }

  lemma AppendsAt(t: seq<Node>, entries: nat, q: nat, n: nat, k: nat, o: Outcome)
    requires 0 < |t| && t[0].key != 0 && entries < |t| && FirstUnused(t, 0, q) && k != 0
    requires Hash(|t|, k) == 0 && StopsIn(t, 0, k, q, n) && o == Outcome(Appended(t, q, q, k, 0), Bump(entries), true)
    ensures Inserts(t, entries, k, 0, o)
  {
    hide Hash, StopsIn, Appended;
    FirstIsUnused(t, q);
    assert StopsAt(t, 0, k, q);
    assert Ends(t, entries, k, 0, q, o);
  }

  /** Key 0 at a used head of an exact table with room: insertions can make a chain come back to
      where it was exactly if a second slot is unused. */
  lemma LoopIff(s: seq<Node>, rank: seq<nat>, clock: nat, entries: nat, v: nat, o: Outcome)
    requires Inv(s, rank, clock) && s[0].key != 0 && entries == |View(s)| < |s| <= 255
    requires Inserts(s, entries, 0, v, o)
    ensures |o.list| == |s| && ((exists n: nat :: LoopAfter(o.list, o.entries, n)) <==> entries + 1 < |s|)
  {
    hide Inv, Hash, View, Inserts, Closed, LoopAfter;
    Counted(s, rank, clock);
    if entries + 1 < |s| {
      ZeroOpens(s, rank, clock, entries, v, o);
    } else {
      var b, m, q := ZeroAppended(s, rank, clock, entries, v, o);
      ZeroCloses(s, rank, clock, entries, v, o);
      var rank', clock' :| Closed(o.list, o.entries, rank', clock');
      forall n: nat ensures !LoopAfter(o.list, o.entries, n) {
        ClosedNeverLoops(o.list, o.entries, rank', clock', n);
      }
    }
  }

  /** A table of three slots with the keys 3, 0 and 6, which all belong to slot 0: slot 1 is linked
      to itself, and looking for key 9 does not end. */
  method SelfLink() returns (table: Table)
    ensures table.list[..] == [Node(3, 1, 1), Node(6, 2, 1), UNUSED]
    ensures NeverStops(table.list[..], 0, 9)
  {
    hide Inv, View, Ranked;
    table := new Table(3);
    ghost var s0 := table.list[..];
    var three := table.Insert(3, 1);
    ghost var s, rank, clock, e := table.list[..], table.rank, table.clock, table.entries;
    var zero := table.Insert(0, 0);
    ghost var o := Outcome(table.list[..], table.entries, zero);
    var six := table.Insert(6, 2);
    ThreeSixNine();
    FirstUnusedOne(s);
    ZeroThenLoop(s, rank, clock, e, 0, o, 6, 2, Outcome(table.list[..], table.entries, six), 1);
  }

  lemma ThreeSixNine()
    ensures Hash(3, 3) == Hash(3, 0) == Hash(3, 6) == Hash(3, 9) == 0
  {
  }

  lemma FirstUnusedOne(s: seq<Node>)
    requires s == [Node(3, 1, NIL), UNUSED, UNUSED]
    ensures FirstUnused(s, 0, 1) && Absent(s, 6) && Absent(s, 9) && !Full(s)
  {
  }
}
