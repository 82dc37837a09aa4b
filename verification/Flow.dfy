/** Flows of Master/Python/flow.py: splitting a long path into overlapping sub-paths, and
    expanding a sub-path into cells. */
module Flow {
  import opened Wrappers
  import opened Arithmetic
  import D = Dijkstra

  // ---------------------------------------------------------------------------
  // Splitting a path

  /** math.ceil(a / b) */
  function CeilDiv(a: nat, b: nat): nat
    requires 0 < b
  {
    (a + b - 1) / b
  }

  lemma CeilDivBounds(a: nat, b: nat)
    requires 0 < b
    ensures a <= CeilDiv(a, b) * b < a + b
  {
    var q, r := (a + b - 1) / b, (a + b - 1) % b;
    assert a + b - 1 == q * b + r;
  }

  lemma CeilDivAbove(a: nat, b: nat, m: nat)
    requires 0 < b && m < CeilDiv(a, b)
    ensures m * b < a
  {
    CeilDivBounds(a, b);
    var q := CeilDiv(a, b);
    MulMonotone(b, m + 1, q);
    assert (m + 1) * b == m * b + b;
  }

  /** The least number of pieces from two on that leave room for the node a piece repeats. */
  predicate Fewest(length: nat, maxLength: nat, k: nat) {
    && 2 <= k && CeilDiv(length, k) < maxLength
    && forall j :: 2 <= j < k ==> CeilDiv(length, j) >= maxLength
  }

  /** The search for the number of sub-flows: the least from 2 on whose pieces leave room
      for the overlap node. */
  method NumSubFlows(length: nat, maxLength: nat) returns (k: nat)
    requires 2 <= maxLength < length
    ensures Fewest(length, maxLength, k)
  {
    k := 2;
    OneEach(length);
    while CeilDiv(length, k) > maxLength - 1
      invariant 2 <= k <= length
      invariant forall j :: 2 <= j < k ==> CeilDiv(length, j) > maxLength - 1
      decreases length - k
    {
      k := k + 1;
    }
  }

  lemma OneEach(length: nat)
    requires 0 < length
    ensures CeilDiv(length, length) == 1
  {
    CeilDivBounds(length, length);
    if CeilDiv(length, length) >= 2 {
      MulMonotone(length, 2, CeilDiv(length, length));
    }
  }

  /** Minimality is what makes every piece but the last full and the last one non-empty. */
  lemma PiecesFit(length: nat, maxLength: nat, k: nat)
    requires 2 <= maxLength < length && Fewest(length, maxLength, k)
    ensures (k - 1) * CeilDiv(length, k) < length <= k * CeilDiv(length, k)
    ensures 0 < CeilDiv(length, k) && (3 <= maxLength ==> 2 <= CeilDiv(length, k))
  {
    hide CeilDiv;
    var s, m := CeilDiv(length, k), maxLength - 1;
    CeilDivBounds(length, k);
    if k == 2 {
      TwoPieces(length, s);
    } else {
      CeilDivAbove(length, k - 1, m);
      ManyPieces(length, k, s, m);
    }
  }

  lemma TwoPieces(length: nat, s: nat)
    requires 3 <= length <= s * 2 < length + 2
    ensures (2 - 1) * s < length <= 2 * s && 2 <= s
  {
  }

  lemma ManyPieces(length: nat, k: nat, s: nat, m: nat)
    requires 3 <= k && s <= m && m * (k - 1) < length <= s * k
    ensures (k - 1) * s < length <= k * s && 0 < s && (2 <= m ==> 2 <= s)
  {
    MulMonotone(k - 1, s, m);
    if s <= 1 && 2 <= m {
      MulMonotone(k - 1, 2, m);
    }
  }

  /** A Python slice, clamped to the list. */
  function Slice(p: seq<int>, lo: nat, hi: nat): seq<int> {
    if lo < |p| && lo < hi then p[lo..Min(hi, |p|)] else []
  }

  /** The sub-paths joined at the nodes they share. */
  ghost function Glue(subs: seq<seq<int>>): seq<int>
    decreases |subs|
  {
    if subs == [] then []
    else
      var last := subs[|subs| - 1];
      if |subs| == 1 || last == [] then Glue(subs[..|subs| - 1]) + last
      else Glue(subs[..|subs| - 1]) + last[1..]
  }

  lemma GlueOne(subs: seq<seq<int>>)
    requires |subs| == 1
    ensures Glue(subs) == subs[0]
  {
    assert subs[..0] == [];
    assert [] + subs[0] == subs[0];
  }

  lemma GlueMore(subs: seq<seq<int>>)
    requires |subs| > 1 && subs[|subs| - 1] != []
    ensures Glue(subs) == Glue(subs[..|subs| - 1]) + subs[|subs| - 1][1..]
  {
  }

  ghost predicate Meet(p: seq<int>, q: seq<int>) {
    p != [] && q != [] && q[0] == p[|p| - 1]
  }

  /** Each sub-path begins with the node the one before it ends with. */
  ghost predicate Overlapping(subs: seq<seq<int>>) {
    forall i :: 0 <= i < |subs| - 1 ==> Meet(subs[i], subs[i + 1])
  }

  ghost predicate Sized(subs: seq<seq<int>>, least: nat, most: nat) {
    forall i :: 0 <= i < |subs| ==> least <= |subs[i]| <= most
  }

  /** The pieces so far cover the first `at` nodes of the path. */
  ghost predicate CoverTo(path: seq<int>, subs: seq<seq<int>>, at: nat) {
    && 0 < at <= |path| && subs != [] && Overlapping(subs)
    && Glue(subs) == path[..at]
    && var last := subs[|subs| - 1]; last != [] && last[|last| - 1] == path[at - 1]
  }

  lemma SplitStep(path: seq<int>, subs: seq<seq<int>>, s: nat, at: nat)
    requires CoverTo(path, subs, at) && at < |path| && 0 < s
    ensures var next := Slice(path, at - 1, at + s);
            CoverTo(path, subs + [next], Min(at + s, |path|)) && 2 <= |next| <= s + 1
            && (at + s <= |path| ==> |next| == s + 1)
  {
    var next := Slice(path, at - 1, at + s);
    var more := subs + [next];
    assert more[..|more| - 1] == subs;
    assert next[1..] == path[at..Min(at + s, |path|)];
    assert path[..at] + next[1..] == path[..Min(at + s, |path|)];
    forall i | 0 <= i < |more| - 1
      ensures Meet(more[i], more[i + 1])
    {
      if i < |subs| - 1 {
        assert Meet(subs[i], subs[i + 1]);
      }
    }
  }

  lemma FirstPiece(path: seq<int>, s: nat)
    requires 0 < s <= |path|
    ensures CoverTo(path, [Slice(path, 0, s)], s) && Slice(path, 0, s) == path[..s]
  {
    var subs := [path[..s]];
    assert subs[..0] == [];
  }

  /** Each piece but the last adds the same number of nodes to those before it. */
  ghost predicate EvenPieces(subs: seq<seq<int>>, s: nat) {
    forall i :: 0 <= i < |subs| - 1 ==> |subs[i]| == if i == 0 then s else s + 1
  }

  /** `compute_path` from the point where the path is known. */
  method Split(path: seq<int>, maxLength: nat) returns (subs: seq<seq<int>>)
    requires path != [] && 2 <= maxLength
    ensures Glue(subs) == path && Overlapping(subs) && subs != []
    ensures |path| <= maxLength ==> subs == [path]
    ensures |path| > maxLength ==> |subs| >= 2 && Sized(subs, 1, maxLength)
    ensures |path| > maxLength ==> (Sized(subs, 2, maxLength) <==> 3 <= maxLength)
    ensures |path| > maxLength ==> Fewest(|path|, maxLength, |subs|) && EvenPieces(subs, CeilDiv(|path|, |subs|))
  {
    hide CoverTo, CeilDiv, Slice;
    var k, s := 1, |path|;
    if |path| > maxLength {
      k := NumSubFlows(|path|, maxLength);
      s := CeilDiv(|path|, k);
      PiecesFit(|path|, maxLength, k);
    }
    FirstPiece(path, s);
    subs := [Slice(path, 0, s)];
    for idx := 1 to k
      invariant |subs| == idx && CoverTo(path, subs, Min(idx * s, |path|))
      invariant forall i :: 0 < i < |subs| ==> 2 <= |subs[i]| <= s + 1
      invariant |subs[0]| == s && forall i :: 0 < i < |subs| && i < k - 1 ==> |subs[i]| == s + 1
    {
      MulMonotone(s, idx, k - 1);
      assert (idx + 1) * s == idx * s + s;
      if idx < k - 1 {
        MulMonotone(s, idx + 1, k - 1);
      }
      SplitStep(path, subs, s, idx * s);
      subs := subs + [Slice(path, idx * s - 1, idx * s + s)];
    }
    CoveredAll(path, subs);
    if |path| > maxLength && maxLength == 2 {
      assert |subs[0]| == 1;
    }
  }

  lemma CoveredAll(path: seq<int>, subs: seq<seq<int>>)
    requires CoverTo(path, subs, |path|)
    ensures Glue(subs) == path && Overlapping(subs) && subs != []
    ensures |subs| == 1 ==> subs == [path]
  {
    assert path[..|path|] == path;
    if |subs| == 1 {
      assert subs[..0] == [] && Glue(subs) == [] + subs[0];
      assert subs == [subs[0]] && subs[0] == path;
    }
  }

  // ---------------------------------------------------------------------------
  // Costs

  ghost predicate Routed(G: D.Graph, p: seq<int>) {
    forall i :: 0 <= i < |p| - 1 ==> D.Edge(G, p[i], p[i + 1])
  }

  /** The loop over the hops of one sub-path. */
  method SubPathCost(G: D.Graph, p: seq<int>) returns (cost: real)
    requires Routed(G, p)
    ensures cost == D.Cost(G, p)
  {
    cost := 0.0;
    var idx := 0;
    while idx < |p| - 1
      invariant 0 <= idx && (p != [] ==> idx <= |p| - 1)
      invariant p != [] ==> cost == D.Cost(G, p[..idx + 1])
      invariant p == [] ==> cost == 0.0
    {
      assert D.Edge(G, p[idx], p[idx + 1]);
      assert p[..idx + 2][..idx + 1] == p[..idx + 1];
      cost := cost + G[p[idx]][p[idx + 1]];
      idx := idx + 1;
    }
    assert p != [] ==> p[..|p|] == p;
  }

  /** Joining two paths at a shared node adds their costs. */
  lemma {:induction false} CostJoin(G: D.Graph, p: seq<int>, q: seq<int>)
    requires Meet(p, q) && Routed(G, p) && Routed(G, q)
    ensures Routed(G, p + q[1..]) && D.Cost(G, p + q[1..]) == D.Cost(G, p) + D.Cost(G, q)
    decreases |q|
  {
    var r := p + q[1..];
    forall i | 0 <= i < |r| - 1
      ensures D.Edge(G, r[i], r[i + 1])
    {
      if i < |p| - 1 {
        assert D.Edge(G, p[i], p[i + 1]);
      } else {
        var j := i - (|p| - 1);
        assert r[i] == q[j] && r[i + 1] == q[j + 1];
        assert D.Edge(G, q[j], q[j + 1]);
      }
    }
    if |q| == 1 {
      assert r == p;
    } else {
      var q' := q[..|q| - 1];
      CostJoin(G, p, q');
      assert r[..|r| - 1] == p + q'[1..];
    }
  }

  ghost function TotalCost(G: D.Graph, subs: seq<seq<int>>): real
    requires forall i :: 0 <= i < |subs| ==> Routed(G, subs[i])
    decreases |subs|
  {
    if subs == [] then 0.0
    else
      var n := |subs| - 1;
      assert Routed(G, subs[n]);
      TotalCost(G, subs[..n]) + D.Cost(G, subs[n])
  }

  lemma OverlappingPrefix(subs: seq<seq<int>>, n: nat)
    requires n <= |subs| && Overlapping(subs)
    ensures Overlapping(subs[..n])
  {
    forall i | 0 <= i < n - 1
      ensures Meet(subs[..n][i], subs[..n][i + 1])
    {
      assert Meet(subs[i], subs[i + 1]);
    }
  }

  /** Splitting loses no cost and counts none twice. */
  lemma {:induction false} SplitCosts(G: D.Graph, subs: seq<seq<int>>)
    requires subs != [] && Overlapping(subs) && subs[|subs| - 1] != []
    requires forall i :: 0 <= i < |subs| ==> Routed(G, subs[i])
    ensures Glue(subs) != [] && Glue(subs)[|Glue(subs)| - 1] == subs[|subs| - 1][|subs[|subs| - 1]| - 1]
    ensures Routed(G, Glue(subs)) && D.Cost(G, Glue(subs)) == TotalCost(G, subs)
    decreases |subs|
  {
    hide Glue, Routed;
    var n := |subs| - 1;
    if n == 0 {
      GlueOne(subs);
      assert TotalCost(G, subs[..0]) == 0.0;
    } else {
      assert Meet(subs[n - 1], subs[n]);
      OverlappingPrefix(subs, n);
      GlueMore(subs);
      hide Overlapping;
      SplitCosts(G, subs[..n]);
      CostJoin(G, Glue(subs[..n]), subs[n]);
    }
  }

  lemma RoutedParts(G: D.Graph, p: seq<int>, q: seq<int>)
    requires Meet(p, q) && Routed(G, p + q[1..])
    ensures Routed(G, p) && Routed(G, q)
  {
    var r := p + q[1..];
    forall i | 0 <= i < |p| - 1
      ensures D.Edge(G, p[i], p[i + 1])
    {
      assert r[i] == p[i] && r[i + 1] == p[i + 1] && D.Edge(G, r[i], r[i + 1]);
    }
    forall j | 0 <= j < |q| - 1
      ensures D.Edge(G, q[j], q[j + 1])
    {
      var i := j + |p| - 1;
      assert r[i] == q[j] && r[i + 1] == q[j + 1] && D.Edge(G, r[i], r[i + 1]);
    }
  }

  /** The joined path ends where its last piece ends. */
  lemma {:induction false} GlueEnds(subs: seq<seq<int>>)
    requires subs != [] && Overlapping(subs) && subs[|subs| - 1] != []
    ensures Glue(subs) != [] && Glue(subs)[|Glue(subs)| - 1] == subs[|subs| - 1][|subs[|subs| - 1]| - 1]
    decreases |subs|
  {
    var n := |subs| - 1;
    if n == 0 {
      GlueOne(subs);
    } else {
      assert Meet(subs[n - 1], subs[n]);
      OverlappingPrefix(subs, n);
      GlueEnds(subs[..n]);
    }
  }

  /** Every piece of a routed path is routed. */
  lemma {:induction false} PiecesRouted(G: D.Graph, subs: seq<seq<int>>)
    requires subs != [] && Overlapping(subs) && subs[|subs| - 1] != [] && Routed(G, Glue(subs))
    ensures forall i :: 0 <= i < |subs| ==> Routed(G, subs[i])
    decreases |subs|
  {
    var n := |subs| - 1;
    if n == 0 {
      GlueOne(subs);
    } else {
      assert Meet(subs[n - 1], subs[n]);
      OverlappingPrefix(subs, n);
      GlueEnds(subs[..n]);
      RoutedParts(G, Glue(subs[..n]), subs[n]);
      PiecesRouted(G, subs[..n]);
      assert forall i :: 0 <= i < n ==> subs[..n][i] == subs[i];
    }
  }

  /** Whatever `Split` returns for a routed path, the costs of the pieces add up to the
      cost of the path. */
  lemma SplitKeepsCost(G: D.Graph, path: seq<int>, subs: seq<seq<int>>)
    requires Routed(G, path) && path != [] && subs != [] && Glue(subs) == path && Overlapping(subs)
    requires subs[|subs| - 1] != []
    ensures forall i :: 0 <= i < |subs| ==> Routed(G, subs[i])
    ensures TotalCost(G, subs) == D.Cost(G, path)
  {
    PiecesRouted(G, subs);
    SplitCosts(G, subs);
  }

  // ---------------------------------------------------------------------------
  // Window sizes

  function Ceil(x: real): int {
    -((-x).Floor)
  }

  lemma CeilBounds(x: real)
    ensures x <= Ceil(x) as real < x + 1.0
  {
  }

  datatype WindowAlgorithm = EtxBased(factor: nat) | LinkBased(factor: nat)

  ghost function SumEtx(etx: seq<real>): real
    decreases |etx|
  {
    if etx == [] then 0.0 else SumEtx(etx[..|etx| - 1]) + etx[|etx| - 1]
  }

  ghost function SumCeil(etx: seq<real>): int
    decreases |etx|
  {
    if etx == [] then 0 else SumCeil(etx[..|etx| - 1]) + Ceil(etx[|etx| - 1])
  }

  /** The window size for a sub-path whose hops have the given expected transmission
      counts. */
  ghost function WindowSize(algorithm: WindowAlgorithm, etx: seq<real>): int {
    match algorithm
    case EtxBased(f) => Ceil(f as real * SumEtx(etx)) - |etx| + 2
    case LinkBased(f) => f * SumCeil(etx) - |etx| + 2
  }

  /** `calculate_window_size`; None stands for the ValueError on a fixed size below 2. A
      fixed size of 0 counts as not given. */
  method CalculateWindowSize(algorithm: WindowAlgorithm, cost: real, etx: seq<real>, fixedSize: int)
    returns (w: Option<int>)
    requires cost == SumEtx(etx)
    ensures fixedSize != 0 ==> w == if fixedSize < 2 then None else Some(fixedSize)
    ensures fixedSize == 0 ==> w == Some(WindowSize(algorithm, etx))
  {
    if fixedSize != 0 {
      return if fixedSize < 2 then None else Some(fixedSize);
    }
    var hops := |etx|;
    match algorithm
    case EtxBased(f) =>
      w := Some(Ceil(f as real * cost) - hops + 2);
    case LinkBased(f) =>
      var total := 0;
      for hop := 0 to hops
        invariant total == SumCeil(etx[..hop])
      {
        assert etx[..hop + 1][..hop] == etx[..hop];
        total := total + Ceil(etx[hop]);
      }
      assert etx[..hops] == etx;
      w := Some(f * total - hops + 2);
  }

  lemma {:induction false} EtxAddsUp(etx: seq<real>)
    requires forall i :: 0 <= i < |etx| ==> 1.0 <= etx[i]
    ensures |etx| as real <= SumEtx(etx) && SumEtx(etx) <= SumCeil(etx) as real
    decreases |etx|
  {
    if etx != [] {
      var n := |etx| - 1;
      EtxAddsUp(etx[..n]);
      CeilBounds(etx[n]);
    }
  }

  /** A transmission takes at least one attempt, so computed windows are at least 2. */
  lemma WindowAtLeastTwo(algorithm: WindowAlgorithm, etx: seq<real>)
    requires forall i :: 0 <= i < |etx| ==> 1.0 <= etx[i]
    requires 1 <= algorithm.factor
    ensures 2 <= WindowSize(algorithm, etx)
  {
    EtxAddsUp(etx);
    match algorithm
    case EtxBased(f) =>
      ScaleUp(f, SumEtx(etx));
      var x := f as real * SumEtx(etx);
      CeilBounds(x);
      assert |etx| as real <= Ceil(x) as real;
    case LinkBased(f) =>
      assert |etx| <= SumCeil(etx);
      MulMonotone(SumCeil(etx), 1, f);
  }

  /** The sliding-window cells of a path are as many as its cost, scaled and rounded up, or as the scaled
      sum of the costs of its hops, each rounded up. */
  lemma CellsMatchCost(algorithm: WindowAlgorithm, path: seq<int>, etx: seq<real>)
    requires |path| == |etx| + 1
    ensures var n := |path| + WindowSize(algorithm, etx) - 3;
      match algorithm
      case EtxBased(f) => n as real - 1.0 < f as real * SumEtx(etx) <= n as real
      case LinkBased(f) => n == f * SumCeil(etx)
  {
    match algorithm
    case EtxBased(f) =>
      CeilBounds(f as real * SumEtx(etx));
    case LinkBased(f) =>
  }

  lemma {:induction false} SumCeilBounds(etx: seq<real>)
    ensures SumEtx(etx) <= SumCeil(etx) as real <= SumEtx(etx) + |etx| as real
    decreases |etx|
  {
    if etx != [] {
      SumCeilBounds(etx[..|etx| - 1]);
      CeilBounds(etx[|etx| - 1]);
    }
  }

  lemma ScaleUp(f: nat, x: real)
    requires 1 <= f && 0.0 <= x
    ensures x <= f as real * x
  {
  }

  // ---------------------------------------------------------------------------
  // Sliding-window cells

  /** The nodes of cell k: those from which a packet can still be due. */
  function CellAt(path: seq<int>, w: nat, k: nat): seq<int>
    requires 2 <= w && 2 <= |path| && k < |path| + w - 3
  {
    path[Max(0, k - w + 2)..Min(|path| - 1, k + 1) + 1]
  }

  /** The indices at which `create_cells` inserts the node at position j of the path. */
  function FirstIndex(path: seq<int>, w: nat, j: nat): int {
    if j == 0 then 0 else j - 1
  }

  function LastIndex(path: seq<int>, w: nat, j: nat): int {
    if j == 0 then w - 2 else if j == |path| - 1 then j + w - 3 else j + w - 2
  }

  /** A node is inserted into cell k exactly when it belongs there. */
  lemma InsertedIff(path: seq<int>, w: nat, j: nat, k: nat)
    requires 2 <= w && 2 <= |path| && j < |path| && k < |path| + w - 3
    ensures FirstIndex(path, w, j) <= k <= LastIndex(path, w, j) <==> Max(0, k - w + 2) <= j <= Min(|path| - 1, k + 1)
  {
  }

  lemma IndicesInBounds(path: seq<int>, w: nat, j: nat)
    requires 2 <= w && 2 <= |path| && j < |path|
    ensures 0 <= FirstIndex(path, w, j) <= LastIndex(path, w, j) < |path| + w - 3
  {
  }

  /** What cell k holds after the first j nodes have been inserted. */
  function Filled(path: seq<int>, w: nat, k: nat, j: nat): seq<int>
    requires 2 <= w && 2 <= |path| && k < |path| + w - 3 && j <= |path|
  {
    var lo, hi := Max(0, k - w + 2), Min(|path| - 1, k + 1) + 1;
    if j <= lo then [] else path[lo..Min(j, hi)]
  }

  /** The insertion loop for one node. */
  method InsertInto(lists: seq<seq<int>>, first: nat, last: nat, x: int) returns (r: seq<seq<int>>)
    requires first <= last < |lists|
    ensures |r| == |lists|
    ensures forall i :: 0 <= i < |r| ==> r[i] == if first <= i <= last then lists[i] + [x] else lists[i]
  {
    r := lists;
    for k := first to last + 1
      invariant |r| == |lists|
      invariant forall i :: 0 <= i < |r| ==> r[i] == if first <= i < k then lists[i] + [x] else lists[i]
    {
      r := r[k := r[k] + [x]];
    }
  }

  lemma FilledNext(path: seq<int>, w: nat, k: nat, j: nat)
    requires 2 <= w && 2 <= |path| && k < |path| + w - 3 && j < |path|
    ensures Filled(path, w, k, j + 1) ==
            if FirstIndex(path, w, j) <= k <= LastIndex(path, w, j) then Filled(path, w, k, j) + [path[j]]
            else Filled(path, w, k, j)
  {
    InsertedIff(path, w, j, k);
  }

  lemma FilledEnds(path: seq<int>, w: nat, k: nat)
    requires 2 <= w && 2 <= |path| && k < |path| + w - 3
    ensures Filled(path, w, k, 0) == [] && Filled(path, w, k, |path|) == CellAt(path, w, k)
  {
  }

  /** Inserting the node at position j into all cells it belongs to. */
  method InsertNode(path: seq<int>, w: nat, j: nat, lists: seq<seq<int>>) returns (r: seq<seq<int>>, count: nat)
    requires 2 <= w && 2 <= |path| && j < |path| && |lists| == |path| + w - 3
    requires forall k :: 0 <= k < |lists| ==> lists[k] == Filled(path, w, k, j)
    ensures |r| == |lists| && forall k :: 0 <= k < |r| ==> r[k] == Filled(path, w, k, j + 1)
    ensures count == LastIndex(path, w, j) - FirstIndex(path, w, j) + 1
  {
    var first, last := FirstIndex(path, w, j), LastIndex(path, w, j);
    IndicesInBounds(path, w, j);
    hide Filled, FirstIndex, LastIndex;
    r := InsertInto(lists, first, last, path[j]);
    forall k | 0 <= k < |r|
      ensures r[k] == Filled(path, w, k, j + 1)
    {
      FilledNext(path, w, k, j);
    }
    count := last - first + 1;
  }

  /** The sliding-window branch of `create_cells`, with the number of transmissions allowed
      to each sender. None stands for the IndexError on a path of one node. */
  method SlidingCells(path: seq<int>, w: nat) returns (cells: Option<seq<seq<int>>>, maxTransmissions: map<int, int>)
    requires path != [] && 2 <= w
    ensures cells == None <==> |path| == 1
    ensures cells.Some? ==> |cells.value| == |path| + w - 3
    ensures cells.Some? ==> forall k :: 0 <= k < |cells.value| ==> cells.value[k] == CellAt(path, w, k)
    ensures cells.Some? ==> forall j :: 0 <= j < |path| - 1 ==> path[j] in maxTransmissions
    ensures forall v :: v in maxTransmissions ==> maxTransmissions[v] == w - 1
  {
    maxTransmissions := map[];
    if |path| == 1 {
      return None, maxTransmissions;
    }
    hide Filled, CellAt;
    var numSlots := |path| + w - 3;
    var lists: seq<seq<int>> := seq(numSlots, i => []);
    forall k | 0 <= k < numSlots
      ensures Filled(path, w, k, 0) == [] && Filled(path, w, k, |path|) == CellAt(path, w, k)
    {
      FilledEnds(path, w, k);
    }
    for j := 0 to |path|
      invariant |lists| == numSlots
      invariant forall k :: 0 <= k < numSlots ==> lists[k] == Filled(path, w, k, j)
      invariant forall i :: 0 <= i < j && i < |path| - 1 ==> path[i] in maxTransmissions
      invariant forall v :: v in maxTransmissions ==> maxTransmissions[v] == w - 1
    {
      var count;
      lists, count := InsertNode(path, w, j, lists);
      if j == 0 {
        maxTransmissions := maxTransmissions[path[j] := count];
      } else if j < |path| - 1 {
        maxTransmissions := maxTransmissions[path[j] := count - 1];
      }
    }
    cells := Some(lists);
  }

  /** Over distinct nodes, a hop is served by exactly the w - 1 cells from its own index
      on: the number of transmissions its sender is allowed. */
  lemma HopServed(path: seq<int>, w: nat, j: nat, k: nat)
    requires 2 <= w && 2 <= |path| && j < |path| - 1 && k < |path| + w - 3
    requires forall a, b :: 0 <= a < b < |path| ==> path[a] != path[b]
    ensures path[j] in CellAt(path, w, k) && path[j + 1] in CellAt(path, w, k) <==> j <= k < j + (w - 1)
    ensures j + (w - 1) <= |path| + w - 3
    ensures 2 <= |CellAt(path, w, k)|
  {
    var lo, hi := Max(0, k - w + 2), Min(|path| - 1, k + 1) + 1;
    InSlice(path, lo, hi, j);
    InSlice(path, lo, hi, j + 1);
  }

  lemma InSlice(path: seq<int>, lo: nat, hi: nat, j: nat)
    requires lo <= hi <= |path| && j < |path| && forall a, b :: 0 <= a < b < |path| ==> path[a] != path[b]
    ensures path[j] in path[lo..hi] <==> lo <= j < hi
  {
    if lo <= j < hi {
      assert path[lo..hi][j - lo] == path[j];
    }
  }

  // ---------------------------------------------------------------------------
  // Cells of the other strategies, and of a whole flow

  function Copies(x: seq<int>, n: int): seq<seq<int>>
    decreases n
  {
    if n <= 0 then [] else Copies(x, n - 1) + [x]
  }

  /** One cell per hop and copy, in path order. */
  function HopByHop(path: seq<int>, copies: seq<int>, hops: nat): seq<seq<int>>
    requires hops <= |copies| && hops < |path|
  {
    if hops == 0 then []
    else HopByHop(path, copies, hops - 1) + Copies([path[hops - 1], path[hops]], copies[hops - 1])
  }

  /** The strategies without a window: one copy of every hop for `no_retransmissions`,
      the rounded-up expected transmission count for `upper_etx_tx_per_link`. */
  method HopCells(path: seq<int>, copies: seq<int>) returns (cells: seq<seq<int>>, maxTransmissions: map<int, int>)
    requires path != [] && |copies| == |path| - 1
    ensures cells == HopByHop(path, copies, |path| - 1)
    ensures forall v :: v in maxTransmissions <==> v in path[..|path| - 1]
    ensures forall j {:trigger copies[j]} :: 0 <= j < |copies| && path[j] !in path[j + 1..|path| - 1] ==>
      path[j] in maxTransmissions && maxTransmissions[path[j]] == copies[j]
  {
    cells, maxTransmissions := [], map[];
    for hop := 0 to |path| - 1
      invariant cells == HopByHop(path, copies, hop)
      invariant Noted(path, copies, hop, maxTransmissions)
    {
      cells := CellsOfHop(cells, [path[hop], path[hop + 1]], copies[hop]);
      NoteNext(path, copies, hop, maxTransmissions);
      maxTransmissions := maxTransmissions[path[hop] := copies[hop]];
    }
    assert path[0..|path| - 1] == path[..|path| - 1];
  }

  /** The inner loop: one cell for each transmission on a hop. */
  method CellsOfHop(before: seq<seq<int>>, hop: seq<int>, copies: int) returns (cells: seq<seq<int>>)
    ensures cells == before + Copies(hop, copies)
  {
    cells := before;
    var i := 0;
    while i < copies
      invariant 0 <= i && (copies >= 0 ==> i <= copies) && (copies < 0 ==> i == 0)
      invariant cells == before + Copies(hop, i)
    {
      cells := cells + [hop];
      i := i + 1;
    }
  }

  /** The senders of the first hops, each with the transmissions on the last hop it sends on. */
  ghost predicate Noted(path: seq<int>, copies: seq<int>, hop: nat, m: map<int, int>)
    requires hop <= |copies| && hop < |path|
  {
    && (forall v :: v in m <==> v in path[0..hop])
    && forall j {:trigger copies[j]} :: 0 <= j < hop && path[j] !in path[j + 1..hop] ==>
         path[j] in m && m[path[j]] == copies[j]
  }

  lemma NoteNext(path: seq<int>, copies: seq<int>, hop: nat, m: map<int, int>)
    requires hop < |copies| && hop + 1 < |path| && Noted(path, copies, hop, m)
    ensures Noted(path, copies, hop + 1, m[path[hop] := copies[hop]])
  {
    var m' := m[path[hop] := copies[hop]];
    SoFar(path, 0, hop);
    assert forall v :: v in m' <==> v in m || v == path[hop];
    forall v ensures v in m' <==> v in path[0..hop + 1] {
    }
    forall j {:trigger copies[j]} | 0 <= j < hop + 1 && path[j] !in path[j + 1..hop + 1]
      ensures path[j] in m' && m'[path[j]] == copies[j]
    {
      if j < hop {
        SoFar(path, j + 1, hop);
        assert path[j] != path[hop] && path[j] !in path[j + 1..hop];
        assert m[path[j]] == copies[j];
      }
    }
  }

  lemma SoFar(path: seq<int>, lo: nat, hop: nat)
    requires lo <= hop < |path|
    ensures forall v :: v in path[lo..hop + 1] <==> v in path[lo..hop] || v == path[hop]
  {
    assert path[lo..hop + 1] == path[lo..hop] + [path[hop]];
  }

  ghost predicate Share(a: seq<int>, b: seq<int>) {
    exists x :: x in a && x in b
  }

  lemma ShareAt(a: seq<int>, i: nat, b: seq<int>, j: nat)
    requires i < |a| && j < |b| && a[i] == b[j]
    ensures Share(a, b)
  {
    assert a[i] in a && a[i] in b;
  }

  /** Neighbouring cells have a node in common. */
  ghost predicate Chained(cells: seq<seq<int>>) {
    forall k :: 0 <= k < |cells| - 1 ==> Share(cells[k], cells[k + 1])
  }

  /** The cells lead from the first node of the path to its last. */
  ghost predicate Spans(path: seq<int>, cells: seq<seq<int>>) {
    && path != [] && cells != [] && Chained(cells)
    && path[0] in cells[0] && path[|path| - 1] in cells[|cells| - 1]
  }

  lemma SpansJoin(p: seq<int>, cells: seq<seq<int>>, q: seq<int>, more: seq<seq<int>>)
    requires Spans(p, cells) && Spans(q, more) && Meet(p, q)
    ensures Spans(p + q[1..], cells + more)
  {
    var all := cells + more;
    forall k | 0 <= k < |all| - 1
      ensures Share(all[k], all[k + 1])
    {
      if k < |cells| - 1 {
        assert Share(cells[k], cells[k + 1]);
      } else if k == |cells| - 1 {
        assert q[0] in all[k] && q[0] in all[k + 1];
      } else {
        var m := k - |cells|;
        assert Share(more[m], more[m + 1]);
      }
    }
  }

  lemma SlidingSpans(path: seq<int>, w: nat, cells: seq<seq<int>>)
    requires 2 <= w && 2 <= |path| && |cells| == |path| + w - 3
    requires forall k :: 0 <= k < |cells| ==> cells[k] == CellAt(path, w, k)
    ensures Spans(path, cells)
  {
    forall k | 0 <= k < |cells| - 1
      ensures Share(cells[k], cells[k + 1])
    {
      var lo, hi := Max(0, k - w + 2), Min(|path| - 1, k + 1) + 1;
      var lo', hi' := Max(0, k + 1 - w + 2), Min(|path| - 1, k + 2) + 1;
      assert lo <= lo' < hi <= hi';
      assert cells[k][lo' - lo] == path[lo'] && cells[k + 1][0] == path[lo'];
      ShareAt(cells[k], lo' - lo, cells[k + 1], 0);
    }
    assert cells[0][0] == path[0];
    var last := |cells| - 1;
    assert cells[last][|cells[last]| - 1] == path[|path| - 1];
  }

  lemma {:induction false} CopiesOf(x: seq<int>, n: int)
    ensures |Copies(x, n)| == if n <= 0 then 0 else n
    ensures forall i :: 0 <= i < |Copies(x, n)| ==> Copies(x, n)[i] == x
    decreases n
  {
    if n > 0 {
      CopiesOf(x, n - 1);
    }
  }

  /** The transmissions on the first n hops. */
  function Transmissions(copies: seq<int>, n: nat): nat
    requires n <= |copies|
  {
    if n == 0 then 0 else Transmissions(copies, n - 1) + Max(0, copies[n - 1])
  }

  lemma {:induction false} TransmissionsGrow(copies: seq<int>, m: nat, n: nat)
    requires m <= n <= |copies|
    ensures Transmissions(copies, m) <= Transmissions(copies, n)
  {
    if m < n {
      TransmissionsGrow(copies, m, n - 1);
    }
  }

  /** Hop j has its cells one behind the other, behind those of the hops before it, and as many as it has
      transmissions. */
  lemma {:induction false} HopRange(path: seq<int>, copies: seq<int>, hops: nat, j: nat)
    requires j < hops <= |copies| && hops < |path|
    ensures |HopByHop(path, copies, hops)| == Transmissions(copies, hops)
    ensures Transmissions(copies, j + 1) == Transmissions(copies, j) + Max(0, copies[j]) <= Transmissions(copies, hops)
    ensures forall k :: Transmissions(copies, j) <= k < Transmissions(copies, j + 1) ==>
      HopByHop(path, copies, hops)[k] == [path[j], path[j + 1]]
    decreases hops
  {
    var hop := [path[hops - 1], path[hops]];
    CopiesOf(hop, copies[hops - 1]);
    if j < hops - 1 {
      HopRange(path, copies, hops - 1, j);
    } else if hops > 1 {
      HopRange(path, copies, hops - 1, 0);
    }
  }

  /** Every cell is one of a hop. */
  lemma {:induction false} HopOf(path: seq<int>, copies: seq<int>, hops: nat, k: nat) returns (i: nat)
    requires hops <= |copies| && hops < |path| && k < |HopByHop(path, copies, hops)|
    ensures i < hops && Transmissions(copies, i) <= k < Transmissions(copies, i + 1)
    decreases hops
  {
    i := hops - 1;
    HopRange(path, copies, hops, i);
    if k < Transmissions(copies, i) {
      if hops > 1 {
        HopRange(path, copies, hops - 1, 0);
      }
      i := HopOf(path, copies, hops - 1, k);
    }
  }

  /** Over distinct nodes, a hop is served by exactly those cells. */
  lemma HopServedOnce(path: seq<int>, copies: seq<int>, hops: nat, j: nat, k: nat)
    requires j < hops <= |copies| && hops < |path| && k < |HopByHop(path, copies, hops)|
    requires forall a, b :: 0 <= a < b < |path| ==> path[a] != path[b]
    ensures HopByHop(path, copies, hops)[k] == [path[j], path[j + 1]] <==> Transmissions(copies, j) <= k < Transmissions(copies, j + 1)
  {
    HopRange(path, copies, hops, j);
    var i := HopOf(path, copies, hops, k);
    HopRange(path, copies, hops, i);
    assert [path[i], path[i + 1]][0] == path[i] && [path[j], path[j + 1]][0] == path[j];
  }

  lemma {:induction false} HopByHopSpans(path: seq<int>, copies: seq<int>, hops: nat)
    requires 0 < hops <= |copies| && hops < |path| && forall i :: 0 <= i < |copies| ==> 1 <= copies[i]
    ensures Spans(path[..hops + 1], HopByHop(path, copies, hops))
  {
    var hop := [path[hops - 1], path[hops]];
    var more := Copies(hop, copies[hops - 1]);
    CopiesOf(hop, copies[hops - 1]);
    assert Spans(hop, more) by {
      forall k | 0 <= k < |more| - 1
        ensures Share(more[k], more[k + 1])
      {
        ShareAt(more[k], 0, more[k + 1], 0);
      }
      assert hop[1] in more[|more| - 1];
    }
    if hops == 1 {
      assert path[..2] == hop;
      assert HopByHop(path, copies, 1) == [] + more;
    } else {
      HopByHopSpans(path, copies, hops - 1);
      SpansJoin(path[..hops], HopByHop(path, copies, hops - 1), hop, more);
      assert path[..hops] + hop[1..] == path[..hops + 1];
    }
  }

  ghost function Flatten(parts: seq<seq<seq<int>>>): seq<seq<int>>
    decreases |parts|
  {
    if parts == [] then [] else Flatten(parts[..|parts| - 1]) + parts[|parts| - 1]
  }

  lemma FlattenOne(parts: seq<seq<seq<int>>>)
    requires |parts| == 1
    ensures Flatten(parts) == parts[0]
  {
    assert parts[..0] == [];
    assert [] + parts[0] == parts[0];
  }

  /** The cells of a split flow, sub-path after sub-path, still form one chain from the
      source to the destination. */
  lemma {:induction false} FlowSpans(subs: seq<seq<int>>, parts: seq<seq<seq<int>>>)
    requires subs != [] && |parts| == |subs| && Overlapping(subs)
    requires forall i :: 0 <= i < |subs| ==> Spans(subs[i], parts[i])
    ensures Spans(Glue(subs), Flatten(parts))
    decreases |subs|
  {
    hide Glue;
    var n := |subs| - 1;
    assert Spans(subs[n], parts[n]);
    if n == 0 {
      GlueOne(subs);
      FlattenOne(parts);
    } else {
      assert Meet(subs[n - 1], subs[n]);
      OverlappingPrefix(subs, n);
      GlueMore(subs);
      hide Spans, Overlapping, Share;
      FlowSpans(subs[..n], parts[..n]);
      GlueEnds(subs[..n]);
      SpansJoin(Glue(subs[..n]), Flatten(parts[..n]), subs[n], parts[n]);
    }
  }
}
