/** Slots for neighbour data collection, as the end of `Schedule.create` in
    Master/Python/scheduling.py hands them out: every node gets a transmit slot from the
    front and a receive slot from the back of what the flows leave free on channel 0. */
module SlotAllocation {
  import opened Wrappers
  import opened Scheduler

  // ---------------------------------------------------------------------------
  // The matrix of used slots

  /** mat[timeslot][channel] is 1 exactly where a cell is. */
  ghost predicate Mirrors(mat: seq<seq<int>>, g: Grid, n: nat) {
    && |mat| == n
    && forall t :: 0 <= t < n ==> |mat[t]| == |g| && forall c :: 0 <= c < |g| ==>
         mat[t][c] == if At(g, c, t).Some? then 1 else 0
  }

  ghost predicate Idle(g: Grid, t: int) {
    forall c {:trigger At(g, c, t)} :: 0 <= c < |g| ==> At(g, c, t) == None
  }

  /** Number of timeslots below n without any cell. */
  ghost function IdleCount(g: Grid, n: nat): nat {
    if n == 0 then 0 else IdleCount(g, n - 1) + if Idle(g, n - 1) then 1 else 0
  }

  method UsedMatrix(g: Grid, slots: nat) returns (mat: seq<seq<int>>, available: int)
    requires Rect(g, slots)
    ensures Mirrors(mat, g, slots) && available == IdleCount(g, slots)
  {
    mat, available := [], slots;
    for t := 0 to slots
      invariant Mirrors(mat, g, t) && available == slots - t + IdleCount(g, t)
    {
      var rows := [];
      for c := 0 to |g|
        invariant |rows| == c && forall d :: 0 <= d < c ==> rows[d] == if At(g, d, t).Some? then 1 else 0
      {
        assert At(g, c, t) == g[c][t];
        rows := rows + [if g[c][t].Some? then 1 else 0];
      }
      assert 1 in rows <==> !Idle(g, t) by {
        if 1 in rows {
          var d :| 0 <= d < |rows| && rows[d] == 1;
          assert At(g, d, t).Some?;
        }
        if !Idle(g, t) {
          var d :| 0 <= d < |g| && At(g, d, t) != None;
          assert rows[d] == 1;
        }
      }
      if 1 in rows {
        available := available - 1;
      }
      mat := mat + [rows];
    }
  }

  // ---------------------------------------------------------------------------
  // Handing out slots

  /** The timeslots from 1 on that are free on channel 0. */
  function Free(mat: seq<seq<int>>): set<nat>
    requires forall t :: 0 <= t < |mat| ==> mat[t] != []
  {
    set t | 1 <= t < |mat| && mat[t][0] == 0
  }

  function Mark(mat: seq<seq<int>>, t: nat): seq<seq<int>>
    requires t < |mat| && mat[t] != []
  {
    mat[t := mat[t][0 := 1]]
  }

  lemma MarkFrees(mat: seq<seq<int>>, t: nat)
    requires (forall u :: 0 <= u < |mat| ==> mat[u] != []) && t < |mat|
    ensures forall u :: 0 <= u < |mat| ==> Mark(mat, t)[u] != []
    ensures Free(Mark(mat, t)) == Free(mat) - {t}
  {
  }

  /** The search for a transmit slot. */
  method FirstFree(mat: seq<seq<int>>) returns (r: Option<nat>)
    requires forall t :: 0 <= t < |mat| ==> mat[t] != []
    ensures r.None? <==> Free(mat) == {}
    ensures r.Some? ==> r.value in Free(mat) && forall u :: u in Free(mat) ==> r.value <= u
  {
    var t := 1;
    while t < |mat|
      invariant 1 <= t && forall u :: u in Free(mat) ==> t <= u
    {
      if mat[t][0] == 0 {
        assert t in Free(mat);
        return Some(t);
      }
      t := t + 1;
    }
    assert forall u :: u !in Free(mat);
    return None;
  }

  /** The search for a receive slot, from the back. */
  method LastFree(mat: seq<seq<int>>) returns (r: Option<nat>)
    requires forall t :: 0 <= t < |mat| ==> mat[t] != []
    ensures r.None? <==> Free(mat) == {}
    ensures r.Some? ==> r.value in Free(mat) && forall u :: u in Free(mat) ==> u <= r.value
  {
    var t := |mat| - 1;
    while t >= 1
      invariant t < |mat| && forall u :: u in Free(mat) ==> u <= t
    {
      if mat[t][0] == 0 {
        assert t in Free(mat);
        return Some(t);
      }
      t := t - 1;
    }
    assert forall u :: u !in Free(mat);
    return None;
  }

  /** Row i is complete: node, transmit slot and channel, receive slot and channel. */
  ghost predicate Complete(row: seq<int>, i: int, free: set<nat>) {
    && |row| == 5 && row[0] == i && row[2] == 0 && row[4] == 0
    && 0 <= row[1] < row[3] && row[1] in free && row[3] in free
  }

  /** The slots of a later row lie strictly between those of an earlier one. */
  ghost predicate Inside(inner: seq<int>, outer: seq<int>) {
    |inner| == 5 && |outer| == 5 && outer[1] < inner[1] && inner[3] < outer[3]
  }

  /** What is still free lies strictly between the slots of the row. */
  ghost predicate Around(row: seq<int>, free: set<nat>) {
    |row| == 5 && forall u :: u in free ==> row[1] < u < row[3]
  }

  /** After n rounds on `free` slots: row i is complete exactly when 2i slots were there, and
      complete rows nest. */
  ghost predicate Handed(rows: seq<seq<int>>, free: set<nat>, n: nat) {
    && |rows| == n + 1
    && (forall i :: 1 <= i <= n ==> if 2 * i <= |free| then Complete(rows[i], i, free) else |rows[i]| < 5)
    && (forall i, j :: 1 <= i < j <= n && 2 * j <= |free| ==> Inside(rows[j], rows[i]))
  }

  /** The body of the loop over the nodes. */
  method OneRow(mat0: seq<seq<int>>, i: nat) returns (row: seq<int>, mat: seq<seq<int>>)
    requires forall t :: 0 <= t < |mat0| ==> mat0[t] != []
    ensures |mat| == |mat0| && forall t :: 0 <= t < |mat| ==> mat[t] != []
    ensures |Free(mat0)| >= 2 ==> Complete(row, i, Free(mat0)) && Around(row, Free(mat))
    ensures |Free(mat0)| >= 2 ==> Free(mat) <= Free(mat0) && |Free(mat)| == |Free(mat0)| - 2
    ensures |Free(mat0)| < 2 ==> |row| < 5 && Free(mat) == {}
  {
    row, mat := [], mat0;
    var tx := FirstFree(mat);
    if tx.Some? {
      row := row + [i, tx.value, 0];
      MarkFrees(mat, tx.value);
      mat := Mark(mat, tx.value);
      hide Mark;
      assert Free(mat) == Free(mat0) - {tx.value};
    }
    ghost var mid := mat;
    var rx := LastFree(mat);
    if rx.Some? {
      row := row + [rx.value, 0];
      MarkFrees(mat, rx.value);
      mat := Mark(mat, rx.value);
      assert Free(mat) == Free(mid) - {rx.value};
    }
    if |Free(mat0)| < 2 {
      AtMostOne(Free(mat0), tx);
    } else {
      assert Free(mat0) != {};
      assert |Free(mid)| >= 1;
      assert Free(mid) != {};
    }
  }

  lemma AtMostOne(free: set<nat>, tx: Option<nat>)
    requires |free| < 2 && (tx.None? <==> free == {}) && (tx.Some? ==> tx.value in free)
    ensures tx.Some? ==> free - {tx.value} == {}
  {
    if tx.Some? {
      assert |free - {tx.value}| == 0;
    }
  }

  ghost predicate AllAround(rows: seq<seq<int>>, free0: set<nat>, free: set<nat>, n: nat) {
    |rows| == n + 1 && forall i :: 1 <= i <= n && 2 * i <= |free0| ==> Around(rows[i], free)
  }

  lemma HandOne(rows: seq<seq<int>>, row: seq<int>, free0: set<nat>, free: set<nat>, free': set<nat>, i: nat)
    requires 1 <= i && Handed(rows, free0, i - 1) && AllAround(rows, free0, free, i - 1) && free <= free0
    requires |free| == if 2 * (i - 1) <= |free0| then |free0| - 2 * (i - 1) else 0
    requires |free| >= 2 ==> Complete(row, i, free) && Around(row, free')
    requires |free| < 2 ==> |row| < 5
    requires free' <= free
    ensures Handed(rows + [row], free0, i) && AllAround(rows + [row], free0, free', i)
  {
    var more := rows + [row];
    assert 2 * i <= |free0| <==> |free| >= 2;
    forall j | 1 <= j < i && 2 * i <= |free0|
      ensures Inside(more[i], more[j])
    {
      assert Around(rows[j], free);
      assert row[1] in free && row[3] in free;
    }
    forall j | 1 <= j <= i && 2 * j <= |free0|
      ensures Around(more[j], free')
    {
      if j < i {
        assert Around(rows[j], free);
      }
    }
  }

  /** The allocation for nodes 1 to n. Row 0 is a dummy. */
  method AllocateSlots(mat0: seq<seq<int>>, n: nat) returns (rows: seq<seq<int>>)
    requires forall t :: 0 <= t < |mat0| ==> mat0[t] != []
    ensures Handed(rows, Free(mat0), n)
  {
    rows := [[0, 0, 0, 0, 0]];
    var mat := mat0;
    for i := 1 to n + 1
      invariant forall t :: 0 <= t < |mat| ==> mat[t] != []
      invariant Handed(rows, Free(mat0), i - 1) && AllAround(rows, Free(mat0), Free(mat), i - 1)
      invariant Free(mat) <= Free(mat0)
      invariant |Free(mat)| == if 2 * (i - 1) <= |Free(mat0)| then |Free(mat0)| - 2 * (i - 1) else 0
    {
      hide Free, Handed, AllAround, Complete, Around;
      ghost var before := Free(mat);
      var row;
      row, mat := OneRow(mat, i);
      HandOne(rows, row, Free(mat0), before, Free(mat), i);
      rows := rows + [row];
    }
  }

  /** The promise for a network of n nodes: with at least 2n timeslots from 1 on free on
      channel 0, every row is complete, the 2n slots are distinct, transmit slots ascend,
      receive slots descend, all transmit slots precede all receive slots, and no flow uses
      any of them on any channel. */
  lemma EveryNodeServed(g: Grid, slots: nat, mat: seq<seq<int>>, rows: seq<seq<int>>, n: nat)
    requires Rect(g, slots) && PrefixOccupied(g) && Mirrors(mat, g, slots)
    requires (forall t :: 0 <= t < |mat| ==> mat[t] != []) && Handed(rows, Free(mat), n) && 2 * n <= |Free(mat)|
    ensures forall i :: 1 <= i <= n ==>
      Complete(rows[i], i, Free(mat)) && Idle(g, rows[i][1]) && Idle(g, rows[i][3])
    ensures forall i, j :: 1 <= i < j <= n ==>
      |rows[i]| == 5 == |rows[j]| && rows[i][1] < rows[j][1] < rows[j][3] < rows[i][3]
  {
    forall i | 1 <= i <= n
      ensures Complete(rows[i], i, Free(mat)) && Idle(g, rows[i][1]) && Idle(g, rows[i][3])
    {
      assert Complete(rows[i], i, Free(mat));
      FreeIsIdle(g, slots, mat, rows[i][1]);
      FreeIsIdle(g, slots, mat, rows[i][3]);
    }
    forall i, j | 1 <= i < j <= n
      ensures |rows[i]| == 5 == |rows[j]| && rows[i][1] < rows[j][1] < rows[j][3] < rows[i][3]
    {
      assert Complete(rows[j], j, Free(mat)) && Inside(rows[j], rows[i]);
    }
  }

  /** A timeslot free on channel 0 is free on all channels. */
  lemma FreeIsIdle(g: Grid, slots: nat, mat: seq<seq<int>>, t: nat)
    requires Rect(g, slots) && PrefixOccupied(g) && Mirrors(mat, g, slots)
    requires (forall u :: 0 <= u < |mat| ==> mat[u] != []) && t in Free(mat)
    ensures Idle(g, t)
  {
    assert mat[t][0] == if At(g, 0, t).Some? then 1 else 0;
    assert At(g, 0, t) == None;
  }
}
