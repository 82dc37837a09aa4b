/** Shortest paths as Master/Python/dijkstra.py computes them, over the priority
    dictionary of PriorityDictionary.dfy. */
module Dijkstra {
  import opened Wrappers
  import opened Sequences
  import opened PriorityDictionary

  /** G[v][w] is the length of the edge from v to w. */
  type Graph = map<int, map<int, real>>

  ghost predicate Edge(G: Graph, v: int, w: int) {
    v in G && w in G[v]
  }

  ghost predicate NonNegative(G: Graph) {
    forall v, w :: Edge(G, v, w) ==> 0.0 <= G[v][w]
  }

  ghost predicate Walk(G: Graph, p: seq<int>, v: int, w: int) {
    && p != [] && p[0] == v && p[|p| - 1] == w
    && forall i :: 0 <= i < |p| - 1 ==> Edge(G, p[i], p[i + 1])
  }

  ghost function Cost(G: Graph, p: seq<int>): real
    requires forall i :: 0 <= i < |p| - 1 ==> Edge(G, p[i], p[i + 1])
    decreases |p|
  {
    if |p| <= 1 then 0.0
    else
      var u, w := p[|p| - 2], p[|p| - 1];
      assert Edge(G, u, w);
      Cost(G, p[..|p| - 1]) + G[u][w]
  }

  /** d is the length of a walk from `start` to v, and no walk is shorter. */
  ghost predicate Distance(G: Graph, start: int, v: int, d: real) {
    && (exists p :: Walk(G, p, start, v) && Cost(G, p) == d)
    && (forall p :: Walk(G, p, start, v) ==> d <= Cost(G, p))
  }

  // ---------------------------------------------------------------------------
  // The invariant of the search

  /** What the search has found: final distances D in the order of finalisation,
      estimates Q of vertices not yet final, and predecessors P. */
  datatype Search = Search(D: map<int, real>, P: map<int, int>, Q: map<int, real>, order: seq<int>)

  ghost predicate Before(order: seq<int>, u: int, w: int) {
    exists i, j :: 0 <= i < j < |order| && order[i] == u && order[j] == w
  }

  lemma BeforeAppend(order: seq<int>, u: int, w: int, v: int)
    ensures Before(order, u, w) ==> Before(order + [v], u, w)
    ensures u in order ==> Before(order + [v], u, v)
  {
    var longer := order + [v];
    if Before(order, u, w) {
      var i, j :| 0 <= i < j < |order| && order[i] == u && order[j] == w;
      assert longer[i] == u && longer[j] == w;
    }
    if u in order {
      var i :| 0 <= i < |order| && order[i] == u;
      assert longer[i] == u && longer[|order|] == v;
    }
  }

  lemma IndexBefore(order: seq<int>, u: int, i: nat) returns (j: nat)
    requires Distinct(order) && i < |order| && Before(order, u, order[i])
    ensures j < i && order[j] == u
  {
    var a, b :| 0 <= a < b < |order| && order[a] == u && order[b] == order[i];
    j := a;
  }

  ghost predicate Ranked(s: Search) {
    && Distinct(s.order)
    && (forall v :: v in s.order <==> v in s.D)
  }

  /** The value known for w, final or estimated. */
  ghost function Value(s: Search, w: int): real
    requires w in s.D || w in s.Q
  {
    if w in s.D then s.D[w] else s.Q[w]
  }

  /** P[w] is final, was final before w, and accounts for the value of w. */
  ghost predicate PredecessorOk(G: Graph, s: Search, w: int) {
    && w in s.P && (w in s.D || w in s.Q)
    && var u := s.P[w];
    && u in s.D && Edge(G, u, w) && Value(s, w) == s.D[u] + G[u][w]
    && (w in s.D ==> Before(s.order, u, w))
  }

  ghost predicate TreeOk(G: Graph, start: int, s: Search) {
    && Ranked(s) && s.D.Keys !! s.Q.Keys && start !in s.P
    && (if s.D == map[] then s.Q == map[start := 0.0] else start in s.D && s.D[start] == 0.0)
    && (forall w :: w in s.D || w in s.Q ==> w == start || PredecessorOk(G, s, w))
  }

  /** The edge from v to w has been used: w is no further than through v. */
  ghost predicate Relaxed(G: Graph, s: Search, v: int, w: int) {
    && v in s.D && Edge(G, v, w)
    && (w in s.D || w in s.Q) && Value(s, w) <= s.D[v] + G[v][w]
  }

  /** Every edge out of a final vertex has been used, except those from v to `rest`. */
  ghost predicate RelaxedBut(G: Graph, s: Search, v: int, rest: set<int>) {
    forall x, w :: x in s.D && Edge(G, x, w) && !(x == v && w in rest) ==> Relaxed(G, s, x, w)
  }

  ghost predicate Mid(G: Graph, start: int, s: Search, v: int, rest: set<int>) {
    TreeOk(G, start, s) && RelaxedBut(G, s, v, rest)
  }

  ghost predicate Inv(G: Graph, start: int, s: Search) {
    TreeOk(G, start, s) && forall x, w :: x in s.D && Edge(G, x, w) ==> Relaxed(G, s, x, w)
  }

  /** Final distances come first. */
  ghost predicate Nearer(s: Search) {
    forall x, y :: x in s.D && y in s.Q ==> s.D[x] <= s.Q[y]
  }

  // ---------------------------------------------------------------------------
  // Steps

  function Finalise(s: Search, v: int): Search
    requires v in s.Q
  {
    Search(s.D[v := s.Q[v]], s.P, s.Q - {v}, s.order + [v])
  }

  function Relax(s: Search, v: int, w: int, length: real): Search {
    if w !in s.D && (w !in s.Q || length < s.Q[w]) then s.(Q := s.Q[w := length], P := s.P[w := v]) else s
  }

  lemma FinaliseKeepsTree(G: Graph, start: int, s: Search, v: int)
    requires TreeOk(G, start, s) && v in s.Q
    ensures TreeOk(G, start, Finalise(s, v))
  {
    var s' := Finalise(s, v);
    assert Ranked(s');
    hide Before, Ranked;
    forall w | (w in s'.D || w in s'.Q) && w != start
      ensures PredecessorOk(G, s', w)
    {
      assert PredecessorOk(G, s, w);
      BeforeAppend(s.order, s.P[w], w, v);
    }
  }

  lemma FinaliseStep(G: Graph, start: int, s: Search, v: int)
    requires Inv(G, start, s) && v in s.Q
    ensures Mid(G, start, Finalise(s, v), v, if v in G then G[v].Keys else {})
  {
    FinaliseKeepsTree(G, start, s, v);
    var s' := Finalise(s, v);
    forall x, w | x in s'.D && Edge(G, x, w) && x != v
      ensures Relaxed(G, s', x, w)
    {
      assert Relaxed(G, s, x, w);
    }
  }

  lemma RelaxKeepsTree(G: Graph, start: int, s: Search, v: int, w: int)
    requires TreeOk(G, start, s) && v in s.D && Edge(G, v, w)
    ensures TreeOk(G, start, Relax(s, v, w, s.D[v] + G[v][w]))
  {
    var s' := Relax(s, v, w, s.D[v] + G[v][w]);
    forall x | (x in s'.D || x in s'.Q) && x != start
      ensures PredecessorOk(G, s', x)
    {
      if x == w && s' != s {
        assert PredecessorOk(G, s', x);
      } else {
        assert PredecessorOk(G, s, x);
      }
    }
  }

  /** Relaxing one edge undoes no other. */
  lemma StaysRelaxed(G: Graph, s: Search, v: int, w: int, length: real, x: int, y: int)
    requires Relaxed(G, s, x, y)
    ensures Relaxed(G, Relax(s, v, w, length), x, y)
  {
  }

  lemma NowRelaxed(G: Graph, s: Search, v: int, w: int)
    requires v in s.D && Edge(G, v, w) && (w in s.D ==> s.D[w] <= s.D[v] + G[v][w])
    ensures Relaxed(G, Relax(s, v, w, s.D[v] + G[v][w]), v, w)
  {
  }

  lemma RelaxStep(G: Graph, start: int, s: Search, v: int, w: int, rest: set<int>)
    requires Mid(G, start, s, v, rest) && v in s.D && w in rest && Edge(G, v, w)
    requires w in s.D ==> s.D[w] <= s.D[v] + G[v][w]
    ensures Mid(G, start, Relax(s, v, w, s.D[v] + G[v][w]), v, rest - {w})
  {
    hide TreeOk, Relaxed;
    var s' := Relax(s, v, w, s.D[v] + G[v][w]);
    assert s'.D == s.D;
    hide Relax;
    RelaxKeepsTree(G, start, s, v, w);
    NowRelaxed(G, s, v, w);
    forall x, y | x in s'.D && Edge(G, x, y) && !(x == v && y in rest - {w})
      ensures Relaxed(G, s', x, y)
    {
      if !(x == v && y == w) {
        StaysRelaxed(G, s, v, w, s.D[v] + G[v][w], x, y);
      }
    }
  }

  // ---------------------------------------------------------------------------
  // What the invariant gives

  /** The walk along predecessors. */
  lemma {:induction false} TreeWalk(G: Graph, start: int, s: Search, i: nat) returns (p: seq<int>)
    requires TreeOk(G, start, s) && i < |s.order|
    ensures Walk(G, p, start, s.order[i]) && s.order[i] in s.D && Cost(G, p) == s.D[s.order[i]]
    decreases i
  {
    hide Before;
    var v := s.order[i];
    assert v in s.D;
    if v == start {
      p := [start];
    } else {
      assert PredecessorOk(G, s, v);
      var j := IndexBefore(s.order, s.P[v], i);
      var q := TreeWalk(G, start, s, j);
      p := q + [v];
      assert p[..|p| - 1] == q;
    }
  }

  /** A walk that ends among the final vertices costs at least the final distance; one that
      leaves them costs at least any bound below all estimates. */
  lemma {:induction false} WalkBound(G: Graph, start: int, s: Search, m: real, p: seq<int>, v: int)
    requires Inv(G, start, s) && start in s.D && Walk(G, p, start, v)
    requires forall y :: y in s.Q ==> m <= s.Q[y]
    requires s.Q == map[] || (NonNegative(G) && forall x :: x in s.D ==> s.D[x] <= m)
    ensures v in s.D ==> s.D[v] <= Cost(G, p)
    ensures v !in s.D ==> s.Q != map[] && m <= Cost(G, p)
    decreases |p|
  {
    if |p| > 1 {
      var u := p[|p| - 2];
      assert Edge(G, u, v);
      WalkBound(G, start, s, m, p[..|p| - 1], u);
      if u in s.D {
        assert Relaxed(G, s, u, v);
      }
    }
  }

  /** With no estimate left, the final distances are exact whatever the weights, and every
      vertex that can be reached is final. */
  lemma ExhaustedIsExact(G: Graph, start: int, s: Search, v: int)
    requires Inv(G, start, s) && start in s.D && s.Q == map[]
    ensures v in s.D ==> Distance(G, start, v, s.D[v])
    ensures v !in s.D ==> !exists p :: Walk(G, p, start, v)
  {
    forall p | Walk(G, p, start, v)
      ensures v in s.D && s.D[v] <= Cost(G, p)
    {
      WalkBound(G, start, s, 0.0, p, v);
    }
    if v in s.D {
      FinalHasWalk(G, start, s, v);
    }
  }

  lemma FinalHasWalk(G: Graph, start: int, s: Search, v: int)
    requires TreeOk(G, start, s) && v in s.D
    ensures exists p :: Walk(G, p, start, v) && Cost(G, p) == s.D[v]
  {
    assert v in s.order;
    var i :| 0 <= i < |s.order| && s.order[i] == v;
    var p := TreeWalk(G, start, s, i);
  }

  /** With non-negative weights, the final distances and the least estimate are exact at
      any time, and no vertex beyond them is nearer. */
  lemma NearestIsExact(G: Graph, start: int, s: Search, v: int, y: int)
    requires Inv(G, start, s) && Nearer(s) && NonNegative(G) && Least(s.Q, v)
    ensures y in s.D || y == v ==> Distance(G, start, y, Value(s, y))
    ensures y !in s.D ==> forall p :: Walk(G, p, start, y) ==> s.Q[v] <= Cost(G, p)
  {
    if start in s.D {
      forall p | Walk(G, p, start, y)
        ensures (if y in s.D then s.D[y] else s.Q[v]) <= Cost(G, p)
      {
        WalkBound(G, start, s, s.Q[v], p, y);
      }
    } else {
      forall p | Walk(G, p, start, y)
        ensures 0.0 <= Cost(G, p)
      {
        CostNonNegative(G, p);
      }
    }
    if y in s.D {
      FinalHasWalk(G, start, s, y);
    } else if y == v {
      FinaliseKeepsTree(G, start, s, v);
      FinalHasWalk(G, start, Finalise(s, v), v);
    }
  }

  lemma {:induction false} CostNonNegative(G: Graph, p: seq<int>)
    requires NonNegative(G) && forall i :: 0 <= i < |p| - 1 ==> Edge(G, p[i], p[i + 1])
    ensures 0.0 <= Cost(G, p)
    decreases |p|
  {
    if |p| > 1 {
      assert Edge(G, p[|p| - 2], p[|p| - 1]);
      CostNonNegative(G, p[..|p| - 1]);
    }
  }

  // ---------------------------------------------------------------------------
  // The algorithm

  /** The two exceptions the search can raise, beside its result. */
  datatype Outcome =
    | Done(D: map<int, real>, P: map<int, int>)
    | NotInGraph(v: int)
    | BetterPath(w: int)

  /** The vertices the search can touch. */
  ghost function Vertices(G: Graph, start: int): set<int> {
    {start} + G.Keys + (set v, w | v in G && w in G[v] :: w)
  }

  /** All estimates belong to vertices of the graph. */
  ghost predicate Within(G: Graph, start: int, s: Search) {
    s.D.Keys <= Vertices(G, start) && s.Q.Keys <= Vertices(G, start)
  }

  /** Every estimate is an old one or comes from an edge out of v. */
  ghost predicate FromEdges(G: Graph, s0: Search, s: Search, v: int) {
    && v in s.D
    && forall y :: y in s.Q ==> (y in s0.Q && s.Q[y] == s0.Q[y]) || (Edge(G, v, y) && s.Q[y] == s.D[v] + G[v][y])
  }

  /** The body of the loop over the neighbours of v, for a w that raises no error. */
  method RelaxOne(G: Graph, start: int, D: map<int, real>, P0: map<int, int>, Q: PriorityDictionary, v: int, w: int,
                  ghost s0: Search)
    returns (P: map<int, int>, ghost s: Search)
    requires Q.Valid() && v in Q.dict && v in D && Edge(G, v, w)
    requires s0.D == D && s0.P == P0 && s0.Q == Q.dict - {v}
    modifies Q
    ensures Q.Valid() && v in Q.dict && s == Relax(s0, v, w, D[v] + G[v][w]) && s.P == P && s.Q == Q.dict - {v}
  {
    var vwLength := D[v] + G[v][w];
    P, s := P0, Relax(s0, v, w, vwLength);
    if w !in D && (w !in Q.dict || vwLength < Q.dict[w]) {
      assert (Q.dict - {v})[w := vwLength] == Q.dict[w := vwLength] - {v};
      Q.Set(w, vwLength);
      P := P[w := v];
    }
  }

  lemma RelaxStaysWithin(G: Graph, start: int, s0: Search, s: Search, v: int, w: int, length: real)
    requires Within(G, start, s) && FromEdges(G, s0, s, v) && Edge(G, v, w) && length == s.D[v] + G[v][w]
    ensures Within(G, start, Relax(s, v, w, length)) && FromEdges(G, s0, Relax(s, v, w, length), v)
  {
    assert w in Vertices(G, start);
  }

  /** The loop over the neighbours of v. Returns the vertex to which a better path was
      found although it is final, if any. */
  method RelaxAll(G: Graph, start: int, D: map<int, real>, P0: map<int, int>, Q: PriorityDictionary, v: int,
                  ghost s0: Search)
    returns (P: map<int, int>, error: Option<int>, ghost s: Search)
    requires Q.Valid() && v in Q.dict && v in D && v in G
    requires s0.D == D && s0.P == P0 && s0.Q == Q.dict - {v}
    requires Mid(G, start, s0, v, G[v].Keys) && Within(G, start, s0)
    modifies Q
    ensures Q.Valid() && v in Q.dict
    ensures s.D == D && s.P == P && s.Q == Q.dict - {v} && s.order == s0.order
    ensures error.None? ==> Mid(G, start, s, v, {}) && Within(G, start, s) && FromEdges(G, s0, s, v)
    ensures error.Some? ==> Edge(G, v, error.value) && error.value in D && D[v] + G[v][error.value] < D[error.value]
  {
    hide Mid, Within;
    P, error := P0, None;
    s := s0;
    var rest := G[v].Keys;
    assert FromEdges(G, s0, s, v);
    hide FromEdges;
    while rest != {}
      invariant Q.Valid() && v in Q.dict && rest <= G[v].Keys
      invariant s.D == D && s.P == P && s.Q == Q.dict - {v} && s.order == s0.order
      invariant Mid(G, start, s, v, rest) && Within(G, start, s) && FromEdges(G, s0, s, v)
    {
      assert (forall x :: x !in rest) ==> rest == {};
      var w :| w in rest;
      if w in D {
        if D[v] + G[v][w] < D[w] {
          error := Some(w);
          return;
        }
      }
      RelaxStep(G, start, s, v, w, rest);
      RelaxStaysWithin(G, start, s0, s, v, w, D[v] + G[v][w]);
      P, s := RelaxOne(G, start, D, P, Q, v, w, s);
      rest := rest - {w};
    }
  }

  lemma NearerFinalised(s: Search, v: int)
    requires Nearer(s) && Least(s.Q, v)
    ensures Nearer(Finalise(s, v)) && forall x :: x in Finalise(s, v).D ==> Finalise(s, v).D[x] <= s.Q[v]
  {
    var s' := Finalise(s, v);
    forall x, y | x in s'.D && y in s'.Q
      ensures s'.D[x] <= s'.Q[y]
    {
      assert LessEq((s.Q[v], v), (s.Q[y], y));
    }
  }

  lemma NearerRelaxed(G: Graph, s0: Search, s: Search, v: int)
    requires NonNegative(G) && Nearer(s0) && s.D == s0.D && FromEdges(G, s0, s, v)
    requires forall x :: x in s.D ==> s.D[x] <= s.D[v]
    ensures Nearer(s)
  {
    forall x, y | x in s.D && y in s.Q
      ensures s.D[x] <= s.Q[y]
    {
      assert Edge(G, v, y) ==> 0.0 <= G[v][y];
    }
  }

  /** What a result promises for non-negative weights: every final distance is exact, and
      vertices that are not final lie beyond the end vertex or cannot be reached. */
  ghost predicate Exact(G: Graph, start: int, end: Option<int>, D: map<int, real>) {
    && (forall v :: v in D ==> Distance(G, start, v, D[v]))
    && (forall v, p :: v !in D && Walk(G, p, start, v) ==>
          end.Some? && end.value in D && D[end.value] <= Cost(G, p))
  }

  /** A way over the edge from x to w is shorter than the distance that is final for w. */
  ghost predicate Undercuts(G: Graph, D: map<int, real>, x: int, w: int) {
    x in D && w in D && Edge(G, x, w) && D[x] + G[x][w] < D[w]
  }

  ghost predicate Undercut(G: Graph, D: map<int, real>, w: int) {
    exists x :: Undercuts(G, D, x, w)
  }

  lemma StoppedIsExact(G: Graph, start: int, s: Search, v: int)
    requires Inv(G, start, s) && Nearer(s) && NonNegative(G) && Least(s.Q, v)
    ensures Exact(G, start, Some(v), Finalise(s, v).D)
  {
    assert v !in s.D;
    hide Inv, Nearer, Distance;
    var D := Finalise(s, v).D;
    forall y
      ensures y in D ==> Distance(G, start, y, D[y])
      ensures y !in D ==> forall p :: Walk(G, p, start, y) ==> D[v] <= Cost(G, p)
    {
      NearestIsExact(G, start, s, v, y);
    }
  }

  lemma FinishedIsExact(G: Graph, start: int, s: Search, end: Option<int>)
    requires Inv(G, start, s) && start in s.D && s.Q == map[]
    ensures Exact(G, start, end, s.D)
  {
    hide Inv, Distance;
    forall y
      ensures y in s.D ==> Distance(G, start, y, s.D[y])
      ensures y !in s.D ==> !exists p :: Walk(G, p, start, y)
    {
      ExhaustedIsExact(G, start, s, y);
    }
  }

  lemma Begins(G: Graph, start: int, s: Search)
    requires s == Search(map[], map[], map[start := 0.0], [])
    ensures Inv(G, start, s) && Nearer(s) && Within(G, start, s)
  {
  }

  lemma MidIsInv(G: Graph, start: int, s: Search, v: int)
    requires Mid(G, start, s, v, {})
    ensures Inv(G, start, s) && (s.Q == map[] ==> start in s.D)
  {
    hide PredecessorOk, Relaxed;
  }

  lemma FreshVertex(G: Graph, start: int, s: Search, v: int)
    requires Inv(G, start, s) && v in s.Q
    ensures v !in s.D && start in Finalise(s, v).D
  {
    hide PredecessorOk, Relaxed, Ranked;
  }

  lemma OneFewer(U: set<int>, K: set<int>, v: int)
    requires v in U && v !in K
    ensures |U - (K + {v})| < |U - K|
  {
    assert U - (K + {v}) == (U - K) - {v};
  }

  /** Making v final leaves one vertex fewer to go. */
  lemma FinaliseShrinks(G: Graph, start: int, s: Search, v: int)
    requires Inv(G, start, s) && Within(G, start, s) && v in s.Q
    ensures Within(G, start, Finalise(s, v)) && start in Finalise(s, v).D
    ensures |Vertices(G, start) - Finalise(s, v).D.Keys| < |Vertices(G, start) - s.D.Keys|
  {
    hide Inv, Vertices, Finalise;
    FreshVertex(G, start, s, v);
    FinaliseKeys(s, v);
    OneFewer(Vertices(G, start), s.D.Keys, v);
  }

  lemma FinaliseKeys(s: Search, v: int)
    requires v in s.Q
    ensures Finalise(s, v).D.Keys == s.D.Keys + {v} && Finalise(s, v).Q.Keys <= s.Q.Keys
  {
  }

  /** `Dijkstra`. The search ends early when it makes `end` final. If it runs to exhaustion
      without raising an error the distances are exact for any weights; for non-negative
      weights they always are, and no better path to a final vertex turns up. */
  method ShortestDistances(G: Graph, start: int, end: Option<int>) returns (r: Outcome, ghost s: Search)
    ensures r.Done? ==> TreeOk(G, start, s) && s.D == r.D && s.P == r.P && start in r.D
    ensures r.Done? && (end.None? || end.value !in r.D) ==> Exact(G, start, end, r.D)
    ensures r.Done? && NonNegative(G) ==> Exact(G, start, end, r.D)
    ensures r.BetterPath? ==> !NonNegative(G) && TreeOk(G, start, s) && Undercut(G, s.D, r.w)
    ensures r.NotInGraph? ==> r.v !in G && r.v in s.D && (end.None? || end.value !in s.D) && exists p :: Walk(G, p, start, r.v)
    ensures r.NotInGraph? && NonNegative(G) ==> Exact(G, start, Some(r.v), s.D)
  {
    hide TreeOk, RelaxedBut, Relaxed, Nearer, Within, Exact, Walk, Vertices, FromEdges;
    var D: map<int, real>, P: map<int, int> := map[], map[];
    var Q := new PriorityDictionary();
    Q.Set(start, 0.0);
    s := Search(D, P, Q.dict, []);
    Begins(G, start, s);
    hide Inv;
    while |Q.dict| > 0
      invariant fresh(Q) && Q.Valid() && s.D == D && s.P == P && s.Q == Q.dict
      invariant Inv(G, start, s) && Within(G, start, s) && (NonNegative(G) ==> Nearer(s))
      invariant s.Q == map[] ==> start in s.D
      invariant end.Some? ==> end.value !in D
      decreases |Vertices(G, start) - D.Keys|
    {
      ghost var s0 := s;
      var least := Q.Smallest();
      var v := least.value;
      D := D[v := Q.dict[v]];
      s := Finalise(s0, v);
      FinaliseStep(G, start, s0, v);
      FinaliseShrinks(G, start, s0, v);
      if end == Some(v) {
        if NonNegative(G) {
          StoppedIsExact(G, start, s0, v);
        }
        return Done(D, P), s;
      }
      if v !in G {
        FinalHasWalk(G, start, s, v);
        if NonNegative(G) {
          StoppedIsExact(G, start, s0, v);
        }
        return NotInGraph(v), s;
      }
      if NonNegative(G) {
        NearerFinalised(s0, v);
      }
      ghost var s1 := s;
      var error;
      P, error, s := RelaxAll(G, start, D, P, Q, v, s1);
      if error.Some? {
        assert Undercuts(G, D, v, error.value);
        return BetterPath(error.value), s1;
      }
      MidIsInv(G, start, s, v);
      if NonNegative(G) {
        NearerRelaxed(G, s1, s, v);
      }
      Q.Remove(v);
    }
    FinishedIsExact(G, start, s, end);
    InvIsTree(G, start, s);
    r := Done(D, P);
  }

  lemma InvIsTree(G: Graph, start: int, s: Search)
    requires Inv(G, start, s)
    ensures TreeOk(G, start, s)
  {
  }

  // ---------------------------------------------------------------------------
  // One path

  /** What `shortestPath` returns or raises: NoPath is the KeyError for an end vertex that
      was never made final. */
  datatype PathOutcome = Path(cost: real, path: seq<int>) | NoPath | Failed(cause: Outcome)

  ghost function Reverse(p: seq<int>): (r: seq<int>)
    ensures |r| == |p|
  {
    if p == [] then [] else Reverse(p[1..]) + [p[0]]
  }

  lemma {:induction false} ReverseAppend(p: seq<int>, x: int)
    ensures Reverse(p + [x]) == [x] + Reverse(p)
  {
    if p == [] {
      assert p + [x] == [x];
    } else {
      ReverseAppend(p[1..], x);
      assert (p + [x])[1..] == p[1..] + [x];
    }
  }

  lemma {:induction false} CostPrepend(G: Graph, u: int, p: seq<int>, v: int, w: int)
    requires Walk(G, p, v, w) && Edge(G, u, v)
    ensures Walk(G, [u] + p, u, w) && Cost(G, [u] + p) == G[u][v] + Cost(G, p)
    decreases |p|
  {
    var q := [u] + p;
    assert forall i :: 0 <= i < |q| - 1 ==> Edge(G, q[i], q[i + 1]) by {
      forall i | 0 <= i < |q| - 1
        ensures Edge(G, q[i], q[i + 1])
      {
        assert 0 < i ==> Edge(G, p[i - 1], p[i]);
      }
    }
    if |p| == 1 {
      assert q[..1] == [u];
    } else {
      CostPrepend(G, u, p[..|p| - 1], v, p[|p| - 2]);
      assert q[..|q| - 1] == [u] + p[..|p| - 1];
    }
  }

  /** The final reversal of the list. */
  method Reversed(p: seq<int>) returns (r: seq<int>)
    ensures r == Reverse(p)
  {
    r := [];
    for i := 0 to |p|
      invariant r == Reverse(p[..i])
    {
      ReverseAppend(p[..i], p[i]);
      assert p[..i + 1] == p[..i] + [p[i]];
      r := [p[i]] + r;
    }
    assert p[..|p|] == p;
  }

  /** The loop of `shortestPath`: from `end` back along predecessors, then reversed. */
  method Trace(G: Graph, start: int, end: int, D: map<int, real>, P: map<int, int>, ghost s: Search)
    returns (path: seq<int>)
    requires TreeOk(G, start, s) && s.D == D && s.P == P && start in D && end in D
    ensures Walk(G, path, start, end) && Cost(G, path) == D[end]
  {
    hide Before;
    assert end in s.order;
    var cur := end;
    ghost var i :| 0 <= i < |s.order| && s.order[i] == end;
    path := [end];
    assert Reverse(path) == [end];
    while cur != start
      invariant 0 <= i < |s.order| && s.order[i] == cur && cur in D
      invariant Walk(G, Reverse(path), cur, end) && Cost(G, Reverse(path)) == D[end] - D[cur]
      decreases i
    {
      assert PredecessorOk(G, s, cur);
      hide Walk, Cost, Reverse;
      ghost var u := s.P[cur];
      i := IndexBefore(s.order, u, i);
      CostPrepend(G, u, Reverse(path), cur, end);
      ReverseAppend(path, u);
      cur := P[cur];
      path := path + [cur];
    }
    assert D[start] == 0.0;
    path := Reversed(path);
  }

  /** To every walk that leads to `end` there is one to v that is no longer. */
  ghost predicate AsNear(G: Graph, start: int, v: int, end: int) {
    forall p :: Walk(G, p, start, end) ==> exists q :: Walk(G, q, start, v) && Cost(G, q) <= Cost(G, p)
  }

  lemma FailsBeforeEnd(G: Graph, start: int, v: int, end: int, D: map<int, real>)
    requires Exact(G, start, Some(v), D) && v in D && end !in D
    ensures AsNear(G, start, v, end)
  {
    hide Cost;
    var q :| Walk(G, q, start, v) && Cost(G, q) == D[v];
    forall p | Walk(G, p, start, end)
      ensures exists q :: Walk(G, q, start, v) && Cost(G, q) <= Cost(G, p)
    {
      assert Cost(G, q) <= Cost(G, p);
    }
  }

  /** `shortestPath`: a real path whose length is the returned cost; for non-negative
      weights no walk is shorter, and none is missed. */
  method ShortestPath(G: Graph, start: int, end: int) returns (r: PathOutcome)
    ensures r.Path? ==> Walk(G, r.path, start, end) && Cost(G, r.path) == r.cost
    ensures r.Path? && NonNegative(G) ==> forall p :: Walk(G, p, start, end) ==> r.cost <= Cost(G, p)
    ensures r.NoPath? ==> !exists p :: Walk(G, p, start, end)
    ensures r.Failed? && NonNegative(G) ==> r.cause.NotInGraph?
    ensures r.Failed? && r.cause.NotInGraph? ==> r.cause.v !in G && r.cause.v != end && exists p :: Walk(G, p, start, r.cause.v)
    ensures r.Failed? && r.cause.NotInGraph? && NonNegative(G) ==> AsNear(G, start, r.cause.v, end)
  {
    hide TreeOk, Walk, Cost;
    var o;
    ghost var s;
    o, s := ShortestDistances(G, start, Some(end));
    if !o.Done? {
      if o.NotInGraph? && NonNegative(G) {
        FailsBeforeEnd(G, start, o.v, end, s.D);
      }
      return Failed(o);
    }
    if end !in o.D {
      return NoPath;
    }
    var path := Trace(G, start, end, o.D, o.P, s);
    r := Path(o.D[end], path);
  }
}
