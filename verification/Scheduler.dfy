/** The TSCH scheduler of Master/Python/scheduling.py: cells of flows are placed in a grid
    of channels and timeslots. */
module Scheduler {
  import opened Wrappers
  import opened Sequences

  /** Cell number `index` of flow number `flow`. */
  datatype Cell = Cell(flow: nat, index: nat, participants: seq<int>)

  type Slot = Option<Cell>

  /** grid[channel][timeslot] */
  type Grid = seq<seq<Slot>>

  /** Channel and timeslot. */
  type Position = (nat, nat)

  ghost predicate Rect(g: Grid, slots: nat) {
    0 < |g| && forall c :: 0 <= c < |g| ==> |g[c]| == slots
  }

  /** The entry of a channel in a timeslot, as a total function. */
  ghost function At(g: Grid, c: int, t: int): Slot {
    if 0 <= c < |g| && 0 <= t < |g[c]| then g[c][t] else None
  }

  ghost predicate Disjoint(p: seq<int>, q: seq<int>) {
    forall x :: x in p ==> x !in q
  }

  /** In every timeslot the occupied channels come first. */
  ghost predicate PrefixOccupied(g: Grid) {
    forall c, d, t {:trigger At(g, c, t), At(g, d, t)} :: 0 <= c < d && At(g, d, t).Some? ==> At(g, c, t).Some?
  }

  /** No node takes part in two cells of one timeslot. */
  ghost predicate ConflictFree(g: Grid) {
    forall c, d, t {:trigger At(g, c, t), At(g, d, t)} :: c != d && At(g, c, t).Some? && At(g, d, t).Some? ==>
      Disjoint(At(g, c, t).value.participants, At(g, d, t).value.participants)
  }

  /** No cell of the timeslot involves one of the given nodes. */
  ghost predicate Clear(g: Grid, t: int, p: seq<int>) {
    forall c {:trigger At(g, c, t)} :: At(g, c, t).Some? ==> Disjoint(p, At(g, c, t).value.participants)
  }

  function Put(g: Grid, c: nat, t: nat, cell: Cell): Grid
    requires c < |g| && t < |g[c]|
  {
    g[c := g[c][t := Some(cell)]]
  }

  lemma PutAt(g: Grid, c: nat, t: nat, cell: Cell, slots: nat)
    requires Rect(g, slots) && c < |g| && t < slots
    ensures Rect(Put(g, c, t, cell), slots) && |Put(g, c, t, cell)| == |g|
    ensures forall d, u {:trigger At(Put(g, c, t, cell), d, u)} ::
      At(Put(g, c, t, cell), d, u) == if d == c && u == t then Some(cell) else At(g, d, u)
  {
  }

  /** Putting a cell on the first free channel of a timeslot clear of its nodes keeps both
      invariants. */
  lemma PutKeeps(g: Grid, c: nat, t: nat, cell: Cell, slots: nat)
    requires Rect(g, slots) && c < |g| && t < slots && PrefixOccupied(g) && ConflictFree(g)
    requires At(g, c, t) == None && Clear(g, t, cell.participants)
    requires forall d {:trigger At(g, d, t)} :: 0 <= d < c ==> At(g, d, t).Some?
    ensures PrefixOccupied(Put(g, c, t, cell)) && ConflictFree(Put(g, c, t, cell))
  {
    PutAt(g, c, t, cell, slots);
    hide Put;
    var g' := Put(g, c, t, cell);
    forall a, b, u {:trigger At(g', a, u), At(g', b, u)} | 0 <= a < b && At(g', b, u).Some?
      ensures At(g', a, u).Some?
    {
    }
    forall a, b, u {:trigger At(g', a, u), At(g', b, u)} | a != b && At(g', a, u).Some? && At(g', b, u).Some?
      ensures Disjoint(At(g', a, u).value.participants, At(g', b, u).value.participants)
    {
    }
  }

  /** What is in g is still in g'. */
  ghost predicate Extends(g: Grid, g': Grid) {
    forall c, t {:trigger At(g', c, t)} {:trigger At(g, c, t)} :: At(g, c, t).Some? ==> At(g', c, t) == At(g, c, t)
  }

  /** Number of timeslots below n in which channel 0 is occupied. */
  ghost function Used(g: Grid, n: nat): nat {
    if n == 0 then 0 else Used(g, n - 1) + if At(g, 0, n - 1).Some? then 1 else 0
  }

  lemma {:induction false} UsedPut(g: Grid, g': Grid, t: nat, n: nat)
    requires forall u {:trigger At(g', 0, u)} :: u != t ==> At(g', 0, u) == At(g, 0, u)
    ensures Used(g', n) <= Used(g, n) + 1 && (n <= t ==> Used(g', n) == Used(g, n))
  {
    if n > 0 {
      UsedPut(g, g', t, n - 1);
      assert At(g', 0, n - 1) == At(g, 0, n - 1) || n - 1 == t;
    }
  }

  /** If channel 0 is occupied throughout [lo, hi), that many timeslots are used. */
  lemma {:induction false} UsedRun(g: Grid, lo: nat, hi: nat, n: nat)
    requires lo <= hi <= n && forall t {:trigger At(g, 0, t)} :: lo <= t < hi ==> At(g, 0, t).Some?
    ensures hi - lo <= Used(g, n)
  {
    if n > hi {
      UsedRun(g, lo, hi, n - 1);
    } else if lo < hi {
      UsedRun(g, lo, hi - 1, n - 1);
      assert At(g, 0, n - 1).Some?;
    }
  }

  // ---------------------------------------------------------------------------
  // The early-exit search

  /** Timeslot t cannot take a cell with these nodes: one of them is busy, or no channel is
      free. */
  ghost predicate Blocked(g: Grid, t: int, p: seq<int>) {
    !Clear(g, t, p) || forall c {:trigger At(g, c, t)} :: 0 <= c < |g| ==> At(g, c, t).Some?
  }

  /** No timeslot from lo on and before hi can take such a cell. */
  ghost predicate BlockedFrom(g: Grid, hi: nat, p: seq<int>, lo: nat) {
    forall t :: lo <= t < hi ==> Blocked(g, t, p)
  }

  /** Timeslot t is the first from lo on that can take it. */
  ghost predicate FirstOpen(g: Grid, slots: nat, p: seq<int>, lo: nat, t: nat) {
    lo <= t < slots && !Blocked(g, t, p) && BlockedFrom(g, t, p, lo)
  }

  /** A timeslot that cannot take a cell never can again. */
  lemma BlockedStays(g: Grid, g': Grid, t: int, p: seq<int>)
    requires Extends(g, g') && |g| == |g'| && Blocked(g, t, p)
    ensures Blocked(g', t, p)
  {
    if !Clear(g, t, p) {
      var c :| At(g, c, t).Some? && !Disjoint(p, At(g, c, t).value.participants);
      assert At(g', c, t) == At(g, c, t);
    }
  }

  lemma BlockedFromStays(g: Grid, g': Grid, hi: nat, p: seq<int>, lo: nat)
    requires Extends(g, g') && |g| == |g'| && BlockedFrom(g, hi, p, lo)
    ensures BlockedFrom(g', hi, p, lo)
  {
    forall t | lo <= t < hi ensures Blocked(g', t, p) {
      BlockedStays(g, g', t, p);
    }
  }

  predicate Intersects(p: seq<int>, q: seq<int>) {
    exists x :: x in p && x in q
  }

  /** The scan of one timeslot from channel c on: it gives up at the first cell that shares
      a node and stops at the first free channel, without looking at later ones. */
  function Scan(g: Grid, slots: nat, t: nat, p: seq<int>, c: nat): (r: Option<nat>)
    requires t < slots && forall d :: 0 <= d < |g| ==> |g[d]| == slots
    ensures r.Some? ==> r.value < |g|
    decreases |g| - c
  {
    if c >= |g| then None
    else if g[c][t].None? then Some(c)
    else if Intersects(p, g[c][t].value.participants) then None
    else Scan(g, slots, t, p, c + 1)
  }

  /** The first position from timeslot t on that the scan finds. */
  ghost function NextOpen(g: Grid, slots: nat, p: seq<int>, t: nat): (r: Option<Position>)
    requires Rect(g, slots)
    ensures r.Some? ==> r.value.0 < |g| && t <= r.value.1 < slots
    decreases slots - t
  {
    if t >= slots then None
    else
      match Scan(g, slots, t, p, 0)
      case Some(c) => Some((c, t))
      case None => NextOpen(g, slots, p, t + 1)
  }

  lemma {:induction false} NextOpenIs(g: Grid, slots: nat, p: seq<int>, t: nat, r: Option<Position>)
    requires Rect(g, slots)
    requires r.Some? ==> t <= r.value.1 < slots && Scan(g, slots, r.value.1, p, 0) == Some(r.value.0)
    requires forall u :: t <= u < (if r.Some? then r.value.1 else slots) ==> Scan(g, slots, u, p, 0) == None
    ensures NextOpen(g, slots, p, t) == r
    decreases slots - t
  {
    if t < slots && (r.None? || t < r.value.1) {
      NextOpenIs(g, slots, p, t + 1, r);
    }
  }

  /** `find_schedulable_slot` */
  method FindSchedulableSlot(g: Grid, slots: nat, p: seq<int>, release: nat) returns (r: Option<(nat, nat)>)
    requires Rect(g, slots)
    ensures r.Some? ==> r.value.0 < |g| && release <= r.value.1 < slots && Scan(g, slots, r.value.1, p, 0) == Some(r.value.0)
    ensures r.Some? ==> forall t :: release <= t < r.value.1 ==> Scan(g, slots, t, p, 0) == None
    ensures r.None? ==> forall t :: release <= t < slots ==> Scan(g, slots, t, p, 0) == None
  {
    for timeslot := 0 to slots
      invariant forall t :: release <= t < timeslot ==> Scan(g, slots, t, p, 0) == None
    {
      var channel := 0;
      while channel < |g|
        invariant 0 <= channel <= |g|
        invariant release <= timeslot ==> Scan(g, slots, timeslot, p, 0) == Scan(g, slots, timeslot, p, channel)
      {
        if g[channel][timeslot].Some? {
          if Intersects(p, g[channel][timeslot].value.participants) {
            break;
          }
        }
        if g[channel][timeslot].None? && timeslot >= release {
          return Some((channel, timeslot));
        }
        channel := channel + 1;
      }
    }
    r := None;
  }

  lemma {:induction false} ScanFrom(g: Grid, slots: nat, t: nat, p: seq<int>, c: nat)
    requires Rect(g, slots) && t < slots && PrefixOccupied(g)
    requires forall d {:trigger At(g, d, t)} :: 0 <= d < c && d < |g| ==>
      At(g, d, t).Some? && Disjoint(p, At(g, d, t).value.participants)
    ensures Scan(g, slots, t, p, c).None? <==> Blocked(g, t, p)
    ensures Scan(g, slots, t, p, c).Some? ==>
      var d := Scan(g, slots, t, p, c).value;
      && d < |g| && At(g, d, t) == None && Clear(g, t, p)
      && forall e {:trigger At(g, e, t)} :: 0 <= e < d ==> At(g, e, t).Some?
    decreases |g| - c
  {
    if c >= |g| {
    } else if At(g, c, t).None? {
      forall d {:trigger At(g, d, t)} | At(g, d, t).Some?
        ensures d < c
      {
        assert At(g, c, t).None?;
      }
    } else if Intersects(p, At(g, c, t).value.participants) {
      assert !Clear(g, t, p);
    } else {
      ScanFrom(g, slots, t, p, c + 1);
    }
  }

  /** Because occupied channels form a prefix, the early exit is sound: the slot it finds is
      clear of the cell's nodes on every channel, and it finds one in every timeslot that
      could take the cell. */
  lemma EarlyExitIsSound(g: Grid, slots: nat, t: nat, p: seq<int>)
    requires Rect(g, slots) && t < slots && PrefixOccupied(g)
    ensures Scan(g, slots, t, p, 0).None? <==> Blocked(g, t, p)
    ensures Scan(g, slots, t, p, 0).Some? ==>
      var c := Scan(g, slots, t, p, 0).value;
      && c < |g| && At(g, c, t) == None && Clear(g, t, p)
      && forall e {:trigger At(g, e, t)} :: 0 <= e < c ==> At(g, e, t).Some?
  {
    ScanFrom(g, slots, t, p, 0);
  }

  /** Without the prefix it is not: a free channel before an occupied one hides a conflict. */
  lemma EarlyExitNeedsPrefix()
    ensures var g := [[None], [Some(Cell(0, 0, [7]))]];
            Rect(g, 1) && !PrefixOccupied(g) && Scan(g, 1, 0, [7], 0) == Some(0) && !Clear(g, 0, [7])
  {
    var g: Grid := [[None], [Some(Cell(0, 0, [7]))]];
    assert At(g, 1, 0) == Some(Cell(0, 0, [7])) && At(g, 0, 0) == None;
    assert 7 in [7];
  }

  // ---------------------------------------------------------------------------
  // EDF and RMS

  datatype Flow = Flow(number: int, period: nat, release: nat, deadline: nat, cells: seq<seq<int>>)

  /** What happens to flows that miss their deadline. */
  datatype Mode = Infeasible | Disabled | Enabled

  /** Placed, or one of the exceptions: a missed deadline in "infeasible" mode, and for EDF, RMS
      and R-LPF no slot left in the grid. C-LLF skips a cell without a slot; there the loop may be
      Unfinished. */
  datatype Outcome = Placed | Missed | NoSlot | Unfinished

  predicate Misses(f: Flow, cycle: nat, t: nat) {
    t >= f.release + f.deadline || (cycle != 1 && t + 1 > cycle)
  }

  /** The first timeslot open to cell j of a flow. */
  ghost function Earliest(f: Flow, at: seq<Position>, j: nat): nat
    requires j <= |at|
  {
    if j == 0 then f.release else at[j - 1].1 + 1
  }

  /** Cell j of flow i is where `at` says, after the one before it, as no timeslot in between can take
      it, and delayed past the release of the flow by at most the number of cells placed before it. */
  ghost predicate CellInOrder(g: Grid, f: Flow, i: nat, at: seq<Position>, before: nat, j: nat)
    requires j < |at| && |at| <= |f.cells|
  {
    var (c, t) := at[j];
    && At(g, c, t) == Some(Cell(i, j, f.cells[j]))
    && Earliest(f, at, j) <= t <= Earliest(f, at, j) + before + j
    && t <= f.release + before + j
    && BlockedFrom(g, t, f.cells[j], Earliest(f, at, j))
  }

  ghost predicate FlowInOrder(g: Grid, f: Flow, i: nat, at: seq<Position>, before: nat) {
    |at| <= |f.cells| && forall j :: 0 <= j < |at| ==> CellInOrder(g, f, i, at, before, j)
  }

  lemma InOrderExtends(g: Grid, g': Grid, f: Flow, i: nat, at: seq<Position>, before: nat)
    requires Extends(g, g') && |g| == |g'| && FlowInOrder(g, f, i, at, before)
    ensures FlowInOrder(g', f, i, at, before)
  {
    hide BlockedFrom;
    forall j | 0 <= j < |at|
      ensures CellInOrder(g', f, i, at, before, j)
    {
      assert CellInOrder(g, f, i, at, before, j);
      BlockedFromStays(g, g', at[j].1, f.cells[j], Earliest(f, at, j));
    }
  }

  /** The next cell of the flow cannot go to any timeslot in time. */
  ghost predicate NoneInTime(g: Grid, f: Flow, at: seq<Position>, cycle: nat)
    requires |at| < |f.cells|
  {
    forall t {:trigger Blocked(g, t, f.cells[|at|])} :: Earliest(f, at, |at|) <= t && !Misses(f, cycle, t) ==>
      Blocked(g, t, f.cells[|at|])
  }

  lemma NoneInTimeStays(g: Grid, g': Grid, f: Flow, at: seq<Position>, cycle: nat)
    requires Extends(g, g') && |g| == |g'| && |at| < |f.cells| && NoneInTime(g, f, at, cycle)
    ensures NoneInTime(g', f, at, cycle)
  {
    forall t {:trigger Blocked(g', t, f.cells[|at|])} | Earliest(f, at, |at|) <= t && !Misses(f, cycle, t)
      ensures Blocked(g', t, f.cells[|at|])
    {
      BlockedStays(g, g', t, f.cells[|at|]);
    }
  }

  /** The first timeslot that can take the next cell of the flow is too late. */
  ghost predicate MissesNext(g: Grid, slots: nat, f: Flow, at: seq<Position>, cycle: nat) {
    |at| < |f.cells| && exists t :: FirstOpen(g, slots, f.cells[|at|], Earliest(f, at, |at|), t) && Misses(f, cycle, t)
  }

  lemma MissedIsNotInTime(g: Grid, slots: nat, f: Flow, at: seq<Position>, cycle: nat)
    requires MissesNext(g, slots, f, at, cycle)
    ensures NoneInTime(g, f, at, cycle)
  {
    hide Blocked;
  }

  /** No timeslot is left for the next cell, or in "enabled" mode for one that is not placed anyway. */
  ghost predicate NoneForNext(g: Grid, slots: nat, f: Flow, at: seq<Position>, mode: Mode) {
    exists j :: |at| <= j < |f.cells| && (mode != Enabled ==> j == |at|)
      && BlockedFrom(g, slots, f.cells[j], Earliest(f, at, |at|))
  }

  /** Timeslots before `end` exist and are in time. */
  predicate Timely(f: Flow, cycle: nat, slots: nat, end: nat) {
    end <= slots && end <= f.release + f.deadline && (cycle == 1 || end <= cycle)
  }

  lemma TimelyNow(f: Flow, cycle: nat, slots: nat, end: nat)
    ensures Timely(f, cycle, slots, end) ==> end <= slots && forall t: nat :: t < end ==> !Misses(f, cycle, t)
  {
  }

  lemma StartInOrder(g: Grid, f: Flow, i: nat, before: nat)
    ensures FlowInOrder(g, f, i, [], before) && FilledFrom(g, f.release, f.release)
  {
  }

  lemma InOrderAppend(g: Grid, f: Flow, i: nat, at: seq<Position>, before: nat, pos: Position)
    requires FlowInOrder(g, f, i, at, before) && |at| < |f.cells|
    requires At(g, pos.0, pos.1) == Some(Cell(i, |at|, f.cells[|at|]))
    requires Earliest(f, at, |at|) <= pos.1 <= Earliest(f, at, |at|) + before + |at|
    requires pos.1 <= f.release + before + |at| && BlockedFrom(g, pos.1, f.cells[|at|], Earliest(f, at, |at|))
    ensures FlowInOrder(g, f, i, at + [pos], before)
  {
    hide BlockedFrom;
    var more := at + [pos];
    forall j | 0 <= j < |more|
      ensures CellInOrder(g, f, i, more, before, j)
    {
      assert Earliest(f, more, j) == Earliest(f, at, j);
      if j < |at| {
        assert CellInOrder(g, f, i, at, before, j);
      }
    }
  }

  /** `last` is the timeslot of the latest cell, or `before` if that is later. */
  ghost predicate IsLast(at: seq<Position>, before: nat, last: nat) {
    && before <= last && (forall k :: 0 <= k < |at| ==> at[k].1 <= last)
    && (last == before || exists k :: 0 <= k < |at| && at[k].1 == last)
  }

  lemma IsLastAppend(at: seq<Position>, before: nat, last: nat, pos: Position)
    requires IsLast(at, before, last)
    ensures IsLast(at + [pos], before, if pos.1 > last then pos.1 else last)
  {
    var more := at + [pos];
    assert more[|at|] == pos;
    if pos.1 <= last && last != before {
      var k :| 0 <= k < |at| && at[k].1 == last;
      assert more[k] == at[k];
    }
  }

  /** The latest timeslot of all, or 0. */
  ghost predicate IsLatest(at: seq<seq<Position>>, last: nat) {
    && (forall i :: 0 <= i < |at| ==> Upto(at[i], last))
    && (last == 0 || exists i :: 0 <= i < |at| && Reaches(at[i], last))
  }

  ghost predicate Upto(at: seq<Position>, last: nat) {
    forall k :: 0 <= k < |at| ==> at[k].1 <= last
  }

  ghost predicate Reaches(at: seq<Position>, last: nat) {
    exists k :: 0 <= k < |at| && at[k].1 == last
  }

  lemma LatestAppend(at: seq<seq<Position>>, last: nat, last': nat, here: seq<Position>)
    requires IsLatest(at, last) && IsLast(here, last, last')
    ensures IsLatest(at + [here], last')
  {
    var more := at + [here];
    assert more[|at|] == here;
    forall i | 0 <= i < |more| ensures Upto(more[i], last') {
      if i < |at| {
        assert Upto(at[i], last);
      }
    }
    if last' == last && last != 0 {
      var i :| 0 <= i < |at| && Reaches(at[i], last);
      assert more[i] == at[i];
    } else if last' != last {
      assert Reaches(here, last');
    }
  }

  class Schedule {
    const slots: nat
    var grid: Grid
    ghost var placed: nat  // cells placed so far

    ghost predicate Valid()
      reads this
    {
      && Rect(grid, slots) && PrefixOccupied(grid) && ConflictFree(grid)
      && Used(grid, slots) <= placed
    }

    constructor (channels: nat, slots: nat)
      requires 0 < channels
      ensures Valid() && this.slots == slots && |grid| == channels && placed == 0
      ensures forall c, t {:trigger At(grid, c, t)} :: At(grid, c, t) == None
    {
      this.slots := slots;
      grid := seq(channels, c => seq(slots, t => None));
      placed := 0;
      new;
      NothingUsed(grid, slots);
    }

    /** Searches a slot for a cell that may not start before `release`. */
    method Search(p: seq<int>, release: nat) returns (r: Option<Position>)
      requires Valid()
      ensures r.None? ==> BlockedFrom(grid, slots, p, release)
      ensures r == NextOpen(grid, slots, p, release)
      ensures r.None? ==> slots <= release + placed
      ensures FilledFrom(grid, release, if r.Some? then r.value.1 else slots)
      ensures r.Some? ==>
        var (c, t) := r.value;
        && c < |grid| && release <= t < slots && t <= release + placed
        && At(grid, c, t) == None && Clear(grid, t, p)
        && (forall d {:trigger At(grid, d, t)} :: 0 <= d < c ==> At(grid, d, t).Some?)
        && FirstOpen(grid, slots, p, release, t)
    {
      r := FindSchedulableSlot(grid, slots, p, release);
      NextOpenIs(grid, slots, p, release, r);
      hide NextOpen;
      forall t | 0 <= t < slots
        ensures Scan(grid, slots, t, p, 0).None? <==> Blocked(grid, t, p)
      {
        EarlyExitIsSound(grid, slots, t, p);
      }
      hide Scan;
      var end := if r.None? then slots else r.value.1;
      if release <= end {
        forall t {:trigger At(grid, 0, t)} | release <= t < end
          ensures At(grid, 0, t).Some?
        {
          BlockedIsUsed(grid, t, p);
        }
        UsedRun(grid, release, end, slots);
      }
      if r.Some? {
        EarlyExitIsSound(grid, slots, r.value.1, p);
      }
    }

    /** Puts a cell at a position the search returned. */
    method Place(c: nat, t: nat, cell: Cell)
      requires Valid() && c < |grid| && t < slots && At(grid, c, t) == None && Clear(grid, t, cell.participants)
      requires forall d {:trigger At(grid, d, t)} :: 0 <= d < c ==> At(grid, d, t).Some?
      modifies this
      ensures Valid() && |grid| == |old(grid)| && placed == old(placed) + 1
      ensures grid == Put(old(grid), c, t, cell)
      ensures forall d, u {:trigger At(grid, d, u)} ::
        At(grid, d, u) == if d == c && u == t then Some(cell) else At(old(grid), d, u)
    {
      PutKeeps(grid, c, t, cell, slots);
      PutAt(grid, c, t, cell, slots);
      UsedPut(grid, Put(grid, c, t, cell), t, slots);
      hide Put;
      grid := Put(grid, c, t, cell);
      placed := placed + 1;
    }

    /** Places the next cell of a flow where the search has found room. */
    method PlaceNextCell(f: Flow, i: nat, j: nat, ghost release: nat, c: nat, t: nat, ghost at: seq<Position>, ghost before: nat)
      requires Valid() && c < |grid| && j == |at| < |f.cells| && release == Earliest(f, at, |at|) && placed == before + |at|
      requires FirstOpen(grid, slots, f.cells[j], release, t) && At(grid, c, t) == None && Clear(grid, t, f.cells[j])
      requires forall d {:trigger At(grid, d, t)} :: 0 <= d < c ==> At(grid, d, t).Some?
      requires FlowInOrder(grid, f, i, at, before) && FilledFrom(grid, f.release, t) && t <= f.release + placed && t <= release + placed
      modifies this
      ensures Valid() && |grid| == |old(grid)| && placed == old(placed) + 1 && Extends(old(grid), grid)
      ensures FlowInOrder(grid, f, i, at + [(c, t)], before) && FilledFrom(grid, f.release, t + 1)
    {
      hide Rect, PrefixOccupied, ConflictFree, Clear, Blocked, At, Used, Put, BlockedFrom;
      ghost var was := grid;
      Place(c, t, Cell(i, j, f.cells[j]));
      assert Extends(was, grid);
      FilledOneMore(was, grid, f.release, c, t);
      InOrderExtends(was, grid, f, i, at, before);
      BlockedFromStays(was, grid, t, f.cells[j], release);
      InOrderAppend(grid, f, i, at, before, (c, t));
    }

    /** The loop over the cells of one flow in EDF and RMS. `at` lists where the cells went. */
    method PlaceFlow(f: Flow, i: nat, mode: Mode, cycle: nat, last0: nat) returns (o: Outcome, last: nat, ghost at: seq<Position>)
      requires Valid()
      modifies this
      ensures Valid() && |grid| == |old(grid)| && Extends(old(grid), grid)
      ensures placed == old(placed) + |at| && |at| <= |f.cells| && FlowInOrder(grid, f, i, at, old(placed))
      ensures mode != Disabled ==> forall k :: 0 <= k < |at| ==> !Misses(f, cycle, at[k].1)
      ensures IsLast(at, last0, last) && (last < slots || last == last0)
      ensures o == Placed ==> FlowDone(grid, f, i, at, old(placed), mode, cycle)
      ensures o == Placed && |at| < |f.cells| ==> mode == Enabled && MissesNext(grid, slots, f, at, cycle)
      ensures o == Missed ==> mode == Infeasible && MissesNext(grid, slots, f, at, cycle)
      ensures o == NoSlot ==> |at| < |f.cells| && NoneForNext(grid, slots, f, at, mode) && slots <= f.release + placed
      ensures Timely(f, cycle, slots, f.release + old(placed) + |f.cells|) ==> o == Placed && |at| == |f.cells|
      ensures o != Unfinished
    {
      assert IsLast([], last0, last0);
      hide Valid, Rect, PrefixOccupied, ConflictFree, Clear, Blocked, At, NextOpen, BlockedFrom, IsLast, Used, Put, Misses, Timely,
        FlowInOrder, FilledFrom, Extends;
      ExtendsSelf(grid);
      StartInOrder(grid, f, i, placed);
      last, at := last0, [];
      var release: nat := f.release;
      var cnmid := false;
      for j := 0 to |f.cells|
        invariant Valid() && |grid| == |old(grid)| && Extends(old(grid), grid)
        invariant |at| <= j && placed == old(placed) + |at| && FlowInOrder(grid, f, i, at, old(placed))
        invariant if |at| == j then !cnmid || mode == Disabled else mode == Enabled && cnmid && MissesNext(grid, slots, f, at, cycle)
        invariant release == Earliest(f, at, |at|) && FilledFrom(grid, f.release, release)
        invariant IsLast(at, last0, last) && (last < slots || last == last0)
        invariant mode != Disabled ==> forall k :: 0 <= k < |at| ==> !Misses(f, cycle, at[k].1)
        invariant Timely(f, cycle, slots, f.release + old(placed) + |f.cells|) ==> |at| == j
      {
        ValidMeans(this);
        TimelyNow(f, cycle, slots, f.release + old(placed) + |f.cells|);
        var r := Search(f.cells[j], release);
        if r.None? {
          NoneLeft(grid, f.release, release, slots, placed);
          return NoSlot, last, at;
        }
        var (c, t) := r.value;
        FilledSoFar(grid, f.release, release, t, slots, placed);
        FilledJoin(grid, f.release, release, t);
        if Misses(f, cycle, t) {
          cnmid := true;
          if mode == Infeasible {
            return Missed, last, at;
          }
        }
        if mode != Enabled || !cnmid {
          ghost var was := grid;
          PlaceNextCell(f, i, j, release, c, t, at, old(placed));
          ExtendsTrans(old(grid), was, grid);
          IsLastAppend(at, last0, last, (c, t));
          at := at + [(c, t)];
          release := t + 1;
          if t > last {
            last := t;
          }
        }
      }
      o := Placed;
      if |at| < |f.cells| {
        MissedIsNotInTime(grid, slots, f, at, cycle);
      }
    }

    /** EDF and RMS, from the point where the flows are sorted. If they stop, `at` ends with what was
        placed of the flow that stopped them. */
    method ScheduleInOrder(flows: seq<Flow>, mode: Mode, cycle: nat)
      returns (o: Outcome, last: nat, ghost at: seq<seq<Position>>)
      requires Valid()
      modifies this
      ensures Valid() && |grid| == |old(grid)| && Extends(old(grid), grid)
      ensures o == Placed ==> |at| == |flows| && AllDone(grid, flows, at, old(placed), mode, cycle)
      ensures o == Missed ==> mode == Infeasible
      ensures o != Placed ==> StoppedAt(grid, slots, flows, at, old(placed), mode, cycle, o)
      ensures IsLatest(at, last) && (last < slots || last == 0)
      ensures LatestRelease(flows) + Backlog(flows, old(placed), |flows|) <= slots ==> o != NoSlot
      ensures AllTimely(flows, old(placed), cycle, slots) ==> o == Placed && AllCells(flows, at)
      ensures o != Unfinished
    {
      hide Valid, FlowDone, FlowInOrder, Extends, LatestRelease, MissesNext, NoneForNext, Misses, Timely, AllTimely, IsLast, IsLatest,
        AllDone, AllCells, StoppedAt, Backlog;
      last, at := 0, [];
      NothingDone(grid, flows, placed, mode, cycle);
      for i := 0 to |flows|
        invariant Valid() && |grid| == |old(grid)| && Extends(old(grid), grid)
        invariant |at| == i && placed <= Backlog(flows, old(placed), i) && IsLatest(at, last) && (last < slots || last == 0)
        invariant AllDone(grid, flows, at, old(placed), mode, cycle)
        invariant AllTimely(flows, old(placed), cycle, slots) ==> AllCells(flows, at)
      {
        ghost var was, before, noted, done := grid, placed, last, at;
        ghost var here;
        o, last, here := PlaceFlow(flows[i], i, mode, cycle, last);
        at := at + [here];
        LatestAppend(done, noted, last, here);
        AllCellsNext(flows, done, here);
        ExtendsTrans(old(grid), was, grid);
        BacklogNext(flows, old(placed), i);
        TimelyHere(flows, old(placed), cycle, slots, i, before);
        if o != Placed {
          LatestIsLatest(flows, i);
          BacklogGrows(flows, old(placed), i + 1);
          StopsAt(was, grid, slots, flows, done, here, old(placed), before, mode, cycle, o);
          return;
        }
        AllDoneAppend(was, grid, flows, done, here, old(placed), before, mode, cycle);
      }
      o := Placed;
    }

    /** One turn of C-LLF outside "enabled" mode: the search for every cell of a flow, skipping
        those without a slot. `at` lists where they went, as long as none was skipped. */
    method TakeTurn(f: Flow, i: nat, mode: Mode, cycle: nat) returns (missed: bool, went: map<nat, Position>, ghost at: seq<Position>)
      requires Valid() && mode != Enabled
      modifies this
      ensures Valid() && |grid| == |old(grid)| && Extends(old(grid), grid)
      ensures missed <==> mode == Infeasible && TurnMisses(f, cycle, TurnFrom(old(grid), slots, f, i, 0, f.release).at)
      ensures !missed ==> Turned(grid, went) == TurnFrom(old(grid), slots, f, i, 0, f.release)
      ensures !missed && Complete(f, went) ==>
        FlowDone(grid, f, i, at, old(placed), mode, cycle) && placed == old(placed) + |f.cells|
      ensures !missed && !Complete(f, went) ==> slots < f.release + old(placed) + |f.cells|
    {
      hide Rect, PrefixOccupied, ConflictFree, Clear, Blocked, At, NextOpen, TurnFrom, BlockedFrom;
      missed, went, at := false, map[], [];
      var release: nat := f.release;
      ghost var full, hole: nat := true, 0;
      for j := 0 to |f.cells|
        invariant Valid() && |grid| == |old(grid)| && Extends(old(grid), grid)
        invariant TurnFrom(old(grid), slots, f, i, 0, f.release) ==
          Joined(went, TurnFrom(grid, slots, f, i, j, release))
        invariant f.release <= release && forall k :: k in went ==> k < j
        invariant mode == Infeasible ==> !TurnMisses(f, cycle, went)
        invariant full ==> (forall k :: 0 <= k < j ==> k in went) && |at| == j && placed == old(placed) + j
        invariant full ==> FlowInOrder(grid, f, i, at, old(placed)) && release == Earliest(f, at, j)
        invariant full && mode == Infeasible ==> forall k :: 0 <= k < j ==> !Misses(f, cycle, at[k].1)
        invariant full ==> FilledFrom(grid, f.release, release)
        invariant !full ==> hole < j && hole !in went && slots < f.release + old(placed) + |f.cells|
      {
        TurnUnfolds(grid, slots, f, i, j, release, went);
        var r := Search(f.cells[j], release);
        if r.None? {
          if full {
            NoneLeft(grid, f.release, release, slots, placed);
            full, hole := false, j;
          }
        } else {
          var (c, t) := r.value;
          if Misses(f, cycle, t) && mode == Infeasible {
            missed := true;
            PlacedInTurn(grid, slots, f, i, j, release, went);
            return;
          }
          ghost var was := grid;
          if full {
            FilledSoFar(grid, f.release, release, t, slots, placed);
          }
          Place(c, t, Cell(i, j, f.cells[j]));
          assert Extends(was, grid);
          went := went[j := (c, t)];
          if full {
            assert FilledFrom(was, f.release, t);
            FilledOneMore(was, grid, f.release, c, t);
            InOrderExtends(was, grid, f, i, at, old(placed));
            BlockedFromStays(was, grid, t, f.cells[j], release);
            InOrderAppend(grid, f, i, at, old(placed), (c, t));
            at := at + [(c, t)];
          }
          release := t + 1;
        }
      }
      TurnEnds(grid, slots, f, i, release, went);
    }

    /** C-LLF outside "enabled" mode, for the given number of rounds of its outer loop, which need
        not end. In every round at most one released flow with cells pending has its turn; which
        one, the least laxity decides, and any choice will do here. `turns` lists the flows as
        they have their turns, `when` the rounds in which they do, `now` how many there were in all,
        and `at` where their cells went, as long as none was skipped. */
    method ScheduleByLaxity(flows: seq<Flow>, mode: Mode, cycle: nat, rounds: nat)
      returns (o: Outcome, ghost turns: seq<nat>, ghost when: seq<nat>, ghost now: nat, ghost at: seq<seq<Position>>)
      requires Valid() && mode != Enabled
      modifies this
      ensures Valid() && |grid| == |old(grid)| && Extends(old(grid), grid)
      ensures o == Missed ==> mode == Infeasible
      ensures o != NoSlot
      ensures Legal(slots, flows, Unscheduled(old(grid), flows), turns)
      ensures o == Missed ==> exists i :: NextTurnMisses(slots, flows, Unscheduled(old(grid), flows), turns, i, cycle)
      ensures NoTurnMissed(slots, flows, Unscheduled(old(grid), flows), turns, mode, cycle)
      ensures OnTime(slots, flows, Unscheduled(old(grid), flows), turns, when, now)
      ensures now <= rounds && (o == Unfinished ==> now == rounds)
      ensures o != Missed ==> grid == After(slots, flows, Unscheduled(old(grid), flows), turns).grid
      ensures o == Placed ==> After(slots, flows, Unscheduled(old(grid), flows), turns).pending == {}
      ensures o == Unfinished ==> After(slots, flows, Unscheduled(old(grid), flows), turns).pending != {}
      ensures o == Unfinished ==> rounds <= LatestRelease(flows) + |turns|
      ensures o != Missed && Clean(slots, flows, Unscheduled(old(grid), flows), turns) ==>
        AllTurnsDone(grid, flows, turns, at, old(placed), mode, cycle)
      ensures o != Missed && LatestRelease(flows) + Backlog(flows, old(placed), |flows|) <= slots ==>
        Clean(slots, flows, Unscheduled(old(grid), flows), turns)
        && (LatestRelease(flows) + |flows| < rounds ==> o == Placed)
    {
      hide Rect, PrefixOccupied, ConflictFree, At, FlowDone, Extends, AllTurnsDone, Backlog, After, Legal, Clean, LatestRelease,
        TurnFrom, Complete, Misses, OnTime, NoTurnMissed, TurnMisses, Used, NextTurnMisses;
      turns, when, now, at := [], [], 0, [];
      ghost var s0 := Unscheduled(grid, flows);
      ghost var room := LatestRelease(flows) + Backlog(flows, placed, |flows|) <= slots;
      ExtendsSelf(grid);
      NoTurns(grid, flows, placed, mode, cycle);
      NoTurnsYet(slots, flows, s0);
      NothingOnTime(slots, flows, s0, mode, cycle);
      var pending: set<(nat, nat)> := set i: nat, j: nat | i < |flows| && j < |flows[i].cells| :: (i, j);
      var timeslot: nat := 0;
      while pending != {} && timeslot < rounds
        invariant Valid() && |grid| == |old(grid)| && Extends(old(grid), grid)
        invariant Among(flows, turns)
        invariant Legal(slots, flows, s0, turns) && After(slots, flows, s0, turns) == Progress(grid, pending)
        invariant forall x :: x in pending ==> x.0 < |flows| && x.1 < |flows[x.0].cells|
        invariant timeslot <= rounds && timeslot <= LatestRelease(flows) + |turns|
        invariant Clean(slots, flows, s0, turns) ==>
          AllTurnsDone(grid, flows, turns, at, old(placed), mode, cycle)
          && placed == Backlog(Reordered(flows, turns), old(placed), |turns|)
        invariant room ==> Clean(slots, flows, s0, turns)
        invariant NoTurnMissed(slots, flows, s0, turns, mode, cycle) && OnTime(slots, flows, s0, turns, when, now)
        invariant now == timeslot
        decreases rounds - timeslot
      {
        var toRelease: set<(nat, nat)> := set x | x in pending && flows[x.0].release <= timeslot;
        if toRelease != {} {
          assert (forall x :: x !in toRelease) ==> toRelease == {};
          var x :| x in toRelease;
          var i := x.0;
          ghost var was, before := grid, placed;
          var missed, went;
          ghost var here;
          missed, went, here := TakeTurn(flows[i], i, mode, cycle);
          ExtendsTrans(old(grid), was, grid);
          if missed {
            o := Missed;
            TurnIsMissed(slots, flows, s0, turns, i, x, cycle);
            return;
          }
          NextTurn(slots, flows, s0, turns, i);
          NextIsLegal(slots, flows, s0, turns, i, x);
          NextIsClean(slots, flows, s0, turns, i);
          if Clean(slots, flows, s0, turns) {
            FreshTurn(slots, flows, s0, turns, i, x);
            RoomForNext(was, flows, turns, at, i, old(placed), mode, cycle);
          }
          if Clean(slots, flows, s0, turns + [i]) {
            TurnAppend(was, grid, flows, turns, at, here, i, old(placed), before, mode, cycle);
          }
          NextIsOnTime(slots, flows, s0, turns, when, timeslot, i, mode, cycle);
          turns, when, at := turns + [i], when + [timeslot], at + [here];
          pending := pending - set j | j in went :: (i, j);
        } else {
          assert (forall x :: x !in pending) ==> pending == {};
          ghost var x :| x in pending;
          assert x !in toRelease;
          LatestIsLatest(flows, x.0);
          assert forall y :: y in pending ==> y !in toRelease;
          NoneIsOnTime(slots, flows, s0, turns, when, timeslot);
        }
        timeslot, now := timeslot + 1, now + 1;
      }
      if Clean(slots, flows, s0, turns) {
        TurnsAreDistinct(grid, flows, turns, at, old(placed), mode, cycle);
        OneTurnEach(flows, turns, old(placed));
      }
      o := if pending == {} then Placed else Unfinished;
    }
  }

  // ---------------------------------------------------------------------------
  // C-LLF as a sequence of turns

  /** The grid after a turn, and where the cells of the flow went. */
  datatype Turned = Turned(grid: Grid, at: map<nat, Position>)

  /** The rest of a turn of flow i, from cell j on. A cell without a slot is skipped. */
  ghost function TurnFrom(g: Grid, slots: nat, f: Flow, i: nat, j: nat, release: nat): (r: Turned)
    requires Rect(g, slots) && j <= |f.cells|
    ensures Rect(r.grid, slots) && |r.grid| == |g|
    decreases |f.cells| - j
  {
    if j == |f.cells| then Turned(g, map[])
    else
      match NextOpen(g, slots, f.cells[j], release)
      case None => TurnFrom(g, slots, f, i, j + 1, release)
      case Some((c, t)) =>
        PutAt(g, c, t, Cell(i, j, f.cells[j]), slots);
        var r := TurnFrom(Put(g, c, t, Cell(i, j, f.cells[j])), slots, f, i, j + 1, t + 1);
        Turned(r.grid, r.at[j := (c, t)])
  }

  /** No cell of the flow was skipped. */
  ghost predicate Complete(f: Flow, at: map<nat, Position>) {
    forall j :: 0 <= j < |f.cells| ==> j in at
  }

  ghost function Joined(went: map<nat, Position>, r: Turned): Turned {
    Turned(r.grid, went + r.at)
  }

  /** The turns are those of flows given. */
  ghost predicate Among(flows: seq<Flow>, turns: seq<nat>) {
    forall n :: 0 <= n < |turns| ==> turns[n] < |flows|
  }

  /** The grid, and the cells that have never been placed. */
  datatype Progress = Progress(grid: Grid, pending: set<(nat, nat)>)

  ghost function Unscheduled(g: Grid, flows: seq<Flow>): Progress {
    Progress(g, set i: nat, j: nat | i < |flows| && j < |flows[i].cells| :: (i, j))
  }

  ghost function TurnOf(s: Progress, slots: nat, flows: seq<Flow>, i: nat): (r: Turned)
    requires Rect(s.grid, slots) && i < |flows|
  {
    TurnFrom(s.grid, slots, flows[i], i, 0, flows[i].release)
  }

  /** One turn: all cells of the flow are searched for again, and those placed are pending no more. */
  ghost function Turn(s: Progress, slots: nat, flows: seq<Flow>, i: nat): Progress
    requires Rect(s.grid, slots) && i < |flows|
  {
    var r := TurnOf(s, slots, flows, i);
    Progress(r.grid, s.pending - set j | j in r.at :: (i, j))
  }

  ghost function After(slots: nat, flows: seq<Flow>, s: Progress, turns: seq<nat>): (r: Progress)
    requires Rect(s.grid, slots) && Among(flows, turns)
    ensures Rect(r.grid, slots) && |r.grid| == |s.grid|
    decreases |turns|
  {
    if turns == [] then s
    else
      var n := |turns| - 1;
      Turn(After(slots, flows, s, turns[..n]), slots, flows, turns[n])
  }

  /** Every turn is that of a flow with a cell pending. */
  ghost predicate Legal(slots: nat, flows: seq<Flow>, s: Progress, turns: seq<nat>)
    requires Rect(s.grid, slots)
  {
    && Among(flows, turns)
    && forall n :: 0 <= n < |turns| ==> HasPending(After(slots, flows, s, turns[..n]), turns[n])
  }

  ghost predicate HasPending(s: Progress, i: nat) {
    exists x :: x in s.pending && x.0 == i
  }

  /** In "infeasible" mode no cell has been too late. */
  ghost predicate NoTurnMissed(slots: nat, flows: seq<Flow>, s: Progress, turns: seq<nat>, mode: Mode, cycle: nat)
    requires Rect(s.grid, slots)
  {
    && Among(flows, turns)
    && (mode == Infeasible ==> forall n {:trigger turns[n]} :: 0 <= n < |turns| ==>
          !TurnMisses(flows[turns[n]], cycle, TurnOf(After(slots, flows, s, turns[..n]), slots, flows, turns[n]).at))
  }

  /** Before round `now`, the turns were those of released flows, in different rounds, and a round went by
      without a turn only when no released flow had a cell pending. */
  ghost predicate OnTime(slots: nat, flows: seq<Flow>, s: Progress, turns: seq<nat>, when: seq<nat>, now: nat)
    requires Rect(s.grid, slots)
  {
    && Among(flows, turns) && |when| == |turns|
    && (forall n :: 0 <= n < |when| ==> flows[turns[n]].release <= when[n] < now)
    && (forall m, n :: 0 <= m < n < |when| ==> when[m] < when[n])
    && forall n, t {:trigger IdleRound(when, now, n, t)} :: IdleRound(when, now, n, t) ==>
         NoneReleased(After(slots, flows, s, turns[..n]), flows, t)
  }

  /** Round t comes after n turns and is none itself. */
  ghost predicate IdleRound(when: seq<nat>, now: nat, n: int, t: nat) {
    0 <= n <= |when| && t < now && (0 < n ==> when[n - 1] < t) && (n < |when| ==> t < when[n])
  }

  ghost predicate NoneReleased(s: Progress, flows: seq<Flow>, t: nat) {
    forall x :: x in s.pending ==> x.0 < |flows| && t < flows[x.0].release
  }

  lemma NothingOnTime(slots: nat, flows: seq<Flow>, s: Progress, mode: Mode, cycle: nat)
    requires Rect(s.grid, slots)
    ensures OnTime(slots, flows, s, [], [], 0) && NoTurnMissed(slots, flows, s, [], mode, cycle)
  {
  }

  lemma NextIsOnTime(slots: nat, flows: seq<Flow>, s: Progress, turns: seq<nat>, when: seq<nat>, now: nat, i: nat,
                     mode: Mode, cycle: nat)
    requires Rect(s.grid, slots) && OnTime(slots, flows, s, turns, when, now) && i < |flows| && flows[i].release <= now
    requires NoTurnMissed(slots, flows, s, turns, mode, cycle)
    requires mode == Infeasible ==> !TurnMisses(flows[i], cycle, TurnOf(After(slots, flows, s, turns), slots, flows, i).at)
    ensures OnTime(slots, flows, s, turns + [i], when + [now], now + 1)
    ensures NoTurnMissed(slots, flows, s, turns + [i], mode, cycle)
  {
    hide Rect, After, TurnOf, TurnMisses, NoneReleased;
    var more, whens := turns + [i], when + [now];
    assert more[..|turns|] == turns;
    forall n, t: nat {:trigger IdleRound(whens, now + 1, n, t)} | IdleRound(whens, now + 1, n, t)
      ensures NoneReleased(After(slots, flows, s, more[..n]), flows, t)
    {
      assert n <= |when| && IdleRound(when, now, n, t);
      assert more[..n] == turns[..n];
    }
    forall n {:trigger more[n]} | 0 <= n < |more| && mode == Infeasible
      ensures !TurnMisses(flows[more[n]], cycle, TurnOf(After(slots, flows, s, more[..n]), slots, flows, more[n]).at)
    {
      assert n < |turns| ==> more[n] == turns[n] && more[..n] == turns[..n];
    }
  }

  lemma NoneIsOnTime(slots: nat, flows: seq<Flow>, s: Progress, turns: seq<nat>, when: seq<nat>, now: nat)
    requires Rect(s.grid, slots) && OnTime(slots, flows, s, turns, when, now)
    requires NoneReleased(After(slots, flows, s, turns), flows, now)
    ensures OnTime(slots, flows, s, turns, when, now + 1)
  {
    hide Rect, After, NoneReleased;
    forall n, t: nat {:trigger IdleRound(when, now + 1, n, t)} | IdleRound(when, now + 1, n, t)
      ensures NoneReleased(After(slots, flows, s, turns[..n]), flows, t)
    {
      if t < now {
        assert IdleRound(when, now, n, t);
      } else {
        assert turns[..n] == turns;
      }
    }
  }

  /** No turn has skipped a cell. */
  ghost predicate Clean(slots: nat, flows: seq<Flow>, s: Progress, turns: seq<nat>)
    requires Rect(s.grid, slots)
  {
    && Among(flows, turns)
    && forall n :: 0 <= n < |turns| ==> TurnComplete(slots, flows, s, turns, n)
  }

  ghost predicate TurnComplete(slots: nat, flows: seq<Flow>, s: Progress, turns: seq<nat>, n: nat)
    requires Rect(s.grid, slots) && n < |turns| && Among(flows, turns)
  {
    Complete(flows[turns[n]], TurnOf(After(slots, flows, s, turns[..n]), slots, flows, turns[n]).at)
  }

  lemma NoTurnsYet(slots: nat, flows: seq<Flow>, s: Progress)
    requires Rect(s.grid, slots)
    ensures Legal(slots, flows, s, []) && After(slots, flows, s, []) == s && Clean(slots, flows, s, [])
  {
  }

  lemma {:induction false} TurnKeys(g: Grid, slots: nat, f: Flow, i: nat, j: nat, release: nat)
    requires Rect(g, slots) && j <= |f.cells|
    ensures forall k :: k in TurnFrom(g, slots, f, i, j, release).at ==> j <= k < |f.cells|
    decreases |f.cells| - j
  {
    hide NextOpen;
    if j < |f.cells| {
      var next := NextOpen(g, slots, f.cells[j], release);
      if next.Some? {
        var (c, t) := next.value;
        PutAt(g, c, t, Cell(i, j, f.cells[j]), slots);
        TurnKeys(Put(g, c, t, Cell(i, j, f.cells[j])), slots, f, i, j + 1, t + 1);
      } else {
        TurnKeys(g, slots, f, i, j + 1, release);
      }
    }
  }

  /** The next cell is skipped or placed, as the search has it. */
  lemma TurnUnfolds(g: Grid, slots: nat, f: Flow, i: nat, j: nat, release: nat, went: map<nat, Position>)
    requires Rect(g, slots) && j < |f.cells|
    ensures var next := NextOpen(g, slots, f.cells[j], release);
      var r := Joined(went, TurnFrom(g, slots, f, i, j, release));
      match next
      case None => r == Joined(went, TurnFrom(g, slots, f, i, j + 1, release))
      case Some((c, t)) =>
        var g' := Put(g, c, t, Cell(i, j, f.cells[j]));
        Rect(g', slots) && r == Joined(went[j := (c, t)], TurnFrom(g', slots, f, i, j + 1, t + 1))
  {
    hide NextOpen;
    var next := NextOpen(g, slots, f.cells[j], release);
    if next.Some? {
      var (c, t) := next.value;
      var g' := Put(g, c, t, Cell(i, j, f.cells[j]));
      PutAt(g, c, t, Cell(i, j, f.cells[j]), slots);
      TurnKeys(g', slots, f, i, j + 1, t + 1);
      var at := TurnFrom(g', slots, f, i, j + 1, t + 1).at;
      assert went + at[j := (c, t)] == went[j := (c, t)] + at;
    }
  }

  /** Some cell would go to a timeslot that is too late. */
  ghost predicate TurnMisses(f: Flow, cycle: nat, at: map<nat, Position>) {
    exists k :: k in at && Misses(f, cycle, at[k].1)
  }

  /** What the turn has come to so far is part of the whole turn. */
  lemma PlacedInTurn(g: Grid, slots: nat, f: Flow, i: nat, j: nat, release: nat, went: map<nat, Position>)
    requires Rect(g, slots) && j < |f.cells| && NextOpen(g, slots, f.cells[j], release).Some?
    ensures var r := Joined(went, TurnFrom(g, slots, f, i, j, release));
      j in r.at && r.at[j] == NextOpen(g, slots, f.cells[j], release).value
  {
    hide NextOpen, TurnFrom;
    TurnUnfolds(g, slots, f, i, j, release, went);
    var (c, t) := NextOpen(g, slots, f.cells[j], release).value;
    var g' := Put(g, c, t, Cell(i, j, f.cells[j]));
    PutAt(g, c, t, Cell(i, j, f.cells[j]), slots);
    TurnKeys(g', slots, f, i, j + 1, t + 1);
  }

  /** After these turns it is that of flow i, and a cell of it would be too late. */
  ghost predicate NextTurnMisses(slots: nat, flows: seq<Flow>, s: Progress, turns: seq<nat>, i: int, cycle: nat)
    requires Rect(s.grid, slots) && Among(flows, turns)
  {
    && 0 <= i < |flows| && HasPending(After(slots, flows, s, turns), i)
    && TurnMisses(flows[i], cycle, TurnOf(After(slots, flows, s, turns), slots, flows, i).at)
  }

  lemma TurnIsMissed(slots: nat, flows: seq<Flow>, s: Progress, turns: seq<nat>, i: nat, x: (nat, nat), cycle: nat)
    requires Rect(s.grid, slots) && Among(flows, turns) && i < |flows|
    requires x in After(slots, flows, s, turns).pending && x.0 == i
    requires TurnMisses(flows[i], cycle, TurnOf(After(slots, flows, s, turns), slots, flows, i).at)
    ensures NextTurnMisses(slots, flows, s, turns, i, cycle)
  {
    hide After, TurnOf, TurnMisses;
    PendingWitness(After(slots, flows, s, turns), i, x);
  }

  lemma TurnEnds(g: Grid, slots: nat, f: Flow, i: nat, release: nat, went: map<nat, Position>)
    requires Rect(g, slots)
    ensures Joined(went, TurnFrom(g, slots, f, i, |f.cells|, release)) == Turned(g, went)
  {
    assert went + map[] == went;
  }

  lemma NextTurn(slots: nat, flows: seq<Flow>, s: Progress, turns: seq<nat>, i: nat)
    requires Rect(s.grid, slots) && i < |flows| && Among(flows, turns)
    ensures After(slots, flows, s, turns + [i]) == Turn(After(slots, flows, s, turns), slots, flows, i)
  {
    hide Rect, Turn;
    assert (turns + [i])[..|turns|] == turns;
  }

  lemma PendingWitness(s: Progress, i: nat, x: (nat, nat))
    requires x in s.pending && x.0 == i
    ensures HasPending(s, i)
  {
  }

  lemma NextIsLegal(slots: nat, flows: seq<Flow>, s: Progress, turns: seq<nat>, i: nat, x: (nat, nat))
    requires Rect(s.grid, slots) && Legal(slots, flows, s, turns) && i < |flows|
    requires x in After(slots, flows, s, turns).pending && x.0 == i
    ensures Legal(slots, flows, s, turns + [i])
  {
    hide Rect, After, HasPending;
    var more := turns + [i];
    PendingWitness(After(slots, flows, s, turns), i, x);
    forall n | 0 <= n < |more| ensures HasPending(After(slots, flows, s, more[..n]), more[n]) {
      assert more[..n] == turns[..n];
      assert n == |turns| ==> turns[..n] == turns;
    }
  }

  lemma NextIsClean(slots: nat, flows: seq<Flow>, s: Progress, turns: seq<nat>, i: nat)
    requires Rect(s.grid, slots) && i < |flows| && Among(flows, turns)
    ensures Clean(slots, flows, s, turns + [i]) <==>
      Clean(slots, flows, s, turns) && Complete(flows[i], TurnOf(After(slots, flows, s, turns), slots, flows, i).at)
  {
    hide Rect, After, TurnOf, Complete;
    var more := turns + [i];
    forall n | 0 <= n < |turns|
      ensures TurnComplete(slots, flows, s, more, n) <==> TurnComplete(slots, flows, s, turns, n)
    {
      assert more[..n] == turns[..n];
    }
    assert more[..|turns|] == turns;
    if Clean(slots, flows, s, more) {
      assert TurnComplete(slots, flows, s, more, |turns|);
    }
  }

  /** Pending cells get fewer. */
  lemma {:induction false} PendingShrinks(slots: nat, flows: seq<Flow>, s: Progress, turns: seq<nat>, n: nat)
    requires Rect(s.grid, slots) && n <= |turns| && Among(flows, turns)
    ensures After(slots, flows, s, turns).pending <= After(slots, flows, s, turns[..n]).pending
    decreases |turns|
  {
    hide Rect, TurnOf;
    if n == |turns| {
      assert turns[..n] == turns;
    } else {
      var m := |turns| - 1;
      PendingShrinks(slots, flows, s, turns[..m], n);
      assert turns[..m][..n] == turns[..n];
    }
  }

  /** After a complete turn a flow has no cell pending. */
  lemma TurnCompletes(slots: nat, flows: seq<Flow>, s: Progress, turns: seq<nat>, n: nat, x: (nat, nat))
    requires Rect(s.grid, slots) && n < |turns| && Among(flows, turns)
    requires TurnComplete(slots, flows, s, turns, n)
    requires x in After(slots, flows, s, turns[..n + 1]).pending && x.1 < |flows[turns[n]].cells|
    ensures x.0 != turns[n]
  {
    assert turns[..n + 1][..n] == turns[..n];
  }

  lemma {:induction false} PendingAreCells(slots: nat, flows: seq<Flow>, g: Grid, turns: seq<nat>, x: (nat, nat))
    requires Rect(g, slots) && Among(flows, turns)
    requires x in After(slots, flows, Unscheduled(g, flows), turns).pending
    ensures x.0 < |flows| && x.1 < |flows[x.0].cells|
  {
    PendingShrinks(slots, flows, Unscheduled(g, flows), turns, 0);
    assert turns[..0] == [];
  }

  /** So in a clean run every flow has its turn only once. */
  lemma FreshTurn(slots: nat, flows: seq<Flow>, s: Progress, turns: seq<nat>, i: nat, x: (nat, nat))
    requires Rect(s.grid, slots) && Clean(slots, flows, s, turns) && i < |flows| && s == Unscheduled(s.grid, flows)
    requires x in After(slots, flows, s, turns).pending && x.0 == i
    ensures i !in turns
  {
    PendingAreCells(slots, flows, s.grid, turns, x);
    forall n | 0 <= n < |turns| ensures turns[n] != i {
      assert TurnComplete(slots, flows, s, turns, n);
      PendingShrinks(slots, flows, s, turns, n + 1);
      if turns[n] == i {
        TurnCompletes(slots, flows, s, turns, n, x);
      }
    }
  }

  /** The flows in the order of their turns. */
  ghost function Reordered(flows: seq<Flow>, order: seq<nat>): (r: seq<Flow>)
    requires Among(flows, order)
    ensures |r| == |order|
  {
    seq(|order|, k requires 0 <= k < |order| => flows[order[k]])
  }

  /** Every flow had one turn at most, and is done with the backlog of those before it. */
  ghost predicate AllTurnsDone(g: Grid, flows: seq<Flow>, order: seq<nat>, at: seq<seq<Position>>,
                               base: nat, mode: Mode, cycle: nat) {
    && |at| == |order|
    && Among(flows, order)
    && Distinct(order)
    && forall k :: 0 <= k < |order| ==> TurnDone(g, flows, order, at, base, mode, cycle, k)
  }

  ghost predicate TurnDone(g: Grid, flows: seq<Flow>, order: seq<nat>, at: seq<seq<Position>>,
                           base: nat, mode: Mode, cycle: nat, k: nat)
    requires k < |order| == |at| && Among(flows, order)
  {
    FlowDone(g, flows[order[k]], order[k], at[k], Backlog(Reordered(flows, order), base, k), mode, cycle)
  }

  lemma TurnsAreDistinct(g: Grid, flows: seq<Flow>, order: seq<nat>, at: seq<seq<Position>>, base: nat, mode: Mode, cycle: nat)
    requires AllTurnsDone(g, flows, order, at, base, mode, cycle)
    ensures Distinct(order)
  {
  }

  lemma RoomForNext(g: Grid, flows: seq<Flow>, order: seq<nat>, at: seq<seq<Position>>, i: nat, base: nat, mode: Mode, cycle: nat)
    requires AllTurnsDone(g, flows, order, at, base, mode, cycle) && i < |flows| && i !in order
    ensures flows[i].release + Backlog(Reordered(flows, order), base, |order|) + |flows[i].cells|
      <= LatestRelease(flows) + Backlog(flows, base, |flows|)
  {
    hide Backlog, LatestRelease;
    LatestIsLatest(flows, i);
    NextBacklog(flows, order, i, base);
  }

  lemma NoTurns(g: Grid, flows: seq<Flow>, base: nat, mode: Mode, cycle: nat)
    ensures AllTurnsDone(g, flows, [], [], base, mode, cycle) && Backlog(Reordered(flows, []), base, 0) == base
  {
  }

  lemma {:induction false} BacklogPrefix(flows: seq<Flow>, more: seq<Flow>, base: nat, k: nat)
    requires flows <= more && k <= |flows|
    ensures Backlog(more, base, k) == Backlog(flows, base, k)
  {
    if k > 0 {
      BacklogPrefix(flows, more, base, k - 1);
    }
  }

  lemma {:induction false} BacklogWithout(flows: seq<Flow>, base: nat, k: nat)
    requires k < |flows|
    ensures Backlog(flows, base, |flows|) == Backlog(flows[..k] + flows[k + 1..], base, |flows| - 1) + |flows[k].cells|
  {
    var n := |flows| - 1;
    var rest := flows[..k] + flows[k + 1..];
    BacklogPrefix(flows[..n], flows, base, n);
    if k == n {
      assert rest == flows[..n];
    } else {
      var init := flows[..n];
      BacklogWithout(init, base, k);
      assert rest[..n - 1] == init[..k] + init[k + 1..];
      BacklogPrefix(rest[..n - 1], rest, base, n - 1);
    }
  }

  /** Flows that have one turn each have no more turns than there are flows, and no more cells. */
  lemma {:induction false} OneTurnEach(flows: seq<Flow>, order: seq<nat>, base: nat)
    requires Among(flows, order) && Distinct(order)
    ensures |order| <= |flows| && Backlog(Reordered(flows, order), base, |order|) <= Backlog(flows, base, |flows|)
    decreases |flows|
  {
    hide Backlog;
    if flows == [] {
      if order != [] {
        SomeFlow(flows, order);
      }
    } else {
      var n := |flows| - 1;
      BacklogNext(flows, base, n);
      BacklogPrefix(flows[..n], flows, base, n);
      if k :| 0 <= k < |order| && order[k] == n {
        var rest := order[..k] + order[k + 1..];
        RestIsDistinct(order, k);
        OneTurnEach(flows[..n], rest, base);
        WithoutTurn(flows, order, base, k);
      } else {
        OneTurnEach(flows[..n], order, base);
        assert Reordered(flows[..n], order) == Reordered(flows, order);
      }
    }
  }

  lemma SomeFlow(flows: seq<Flow>, order: seq<nat>)
    requires Among(flows, order) && order != []
    ensures flows != []
  {
    assert order[0] < |flows|;
  }

  lemma RestIsDistinct(order: seq<nat>, k: nat)
    requires k < |order| && Distinct(order)
    ensures var rest := order[..k] + order[k + 1..]; Distinct(rest) && forall l :: 0 <= l < |rest| ==> rest[l] != order[k]
  {
    var rest := order[..k] + order[k + 1..];
    assert forall l :: 0 <= l < |rest| ==> rest[l] == order[if l < k then l else l + 1];
  }

  /** Leaving out the turn of the last flow. */
  lemma WithoutTurn(flows: seq<Flow>, order: seq<nat>, base: nat, k: nat)
    requires Among(flows, order) && k < |order| && order[k] == |flows| - 1
    requires Among(flows[..|flows| - 1], order[..k] + order[k + 1..])
    ensures Backlog(Reordered(flows, order), base, |order|) == |flows[order[k]].cells| +
      Backlog(Reordered(flows[..|flows| - 1], order[..k] + order[k + 1..]), base, |order| - 1)
  {
    hide Backlog;
    var all := Reordered(flows, order);
    BacklogWithout(all, base, k);
    assert all[..k] + all[k + 1..] == Reordered(flows[..|flows| - 1], order[..k] + order[k + 1..]);
  }

  lemma BacklogBase(flows: seq<Flow>, base: nat)
    ensures Backlog(flows, base, 0) == base
  {
  }

  lemma BacklogNext(flows: seq<Flow>, base: nat, n: nat)
    requires n < |flows|
    ensures Backlog(flows, base, n + 1) == Backlog(flows, base, n) + |flows[n].cells|
  {
  }

  /** The flows before the next one and that one together have no more cells than all flows. */
  lemma NextBacklog(flows: seq<Flow>, order: seq<nat>, i: nat, base: nat)
    requires Among(flows, order) && Distinct(order) && i < |flows| && i !in order
    ensures Backlog(Reordered(flows, order), base, |order|) + |flows[i].cells| <= Backlog(flows, base, |flows|)
  {
    hide Backlog;
    var more := order + [i];
    OneTurnEach(flows, more, base);
    BacklogPrefix(Reordered(flows, order), Reordered(flows, more), base, |order|);
    BacklogNext(Reordered(flows, more), base, |order|);
  }

  lemma TurnAppend(g: Grid, g': Grid, flows: seq<Flow>, order: seq<nat>, at: seq<seq<Position>>, here: seq<Position>,
                   i: nat, base: nat, before: nat, mode: Mode, cycle: nat)
    requires Extends(g, g') && |g| == |g'| && AllTurnsDone(g, flows, order, at, base, mode, cycle) && i < |flows| && i !in order
    requires before == Backlog(Reordered(flows, order), base, |order|)
    requires FlowDone(g', flows[i], i, here, before, mode, cycle)
    ensures AllTurnsDone(g', flows, order + [i], at + [here], base, mode, cycle)
    ensures Backlog(Reordered(flows, order + [i]), base, |order| + 1) == before + |flows[i].cells|
  {
    var order', at' := order + [i], at + [here];
    assert forall k :: 0 <= k < |order'| ==> order'[k] < |flows|;
    var turns, turns' := Reordered(flows, order), Reordered(flows, order');
    assert turns <= turns';
    BacklogPrefix(turns, turns', base, |order|);
    hide Extends, FlowDone;
    forall k | 0 <= k < |order'|
      ensures TurnDone(g', flows, order', at', base, mode, cycle, k)
    {
      if k < |order| {
        assert TurnDone(g, flows, order, at, base, mode, cycle, k);
        BacklogPrefix(turns, turns', base, k);
        DoneExtends(g, g', flows[order[k]], order[k], at[k], Backlog(turns, base, k), Backlog(turns, base, k), mode, cycle);
      }
    }
  }

  lemma {:induction false} BacklogGrows(flows: seq<Flow>, base: nat, i: nat)
    requires i <= |flows|
    ensures Backlog(flows, base, i) <= Backlog(flows, base, |flows|)
    decreases |flows| - i
  {
    if i < |flows| {
      BacklogGrows(flows, base, i + 1);
    }
  }

  ghost function LatestRelease(flows: seq<Flow>): nat
    decreases |flows|
  {
    if flows == [] then 0
    else
      var r, f := LatestRelease(flows[..|flows| - 1]), flows[|flows| - 1];
      if r < f.release then f.release else r
  }

  lemma {:induction false} LatestIsLatest(flows: seq<Flow>, i: nat)
    requires i < |flows|
    ensures flows[i].release <= LatestRelease(flows)
    decreases |flows|
  {
    if i < |flows| - 1 {
      LatestIsLatest(flows[..|flows| - 1], i);
    }
  }

  lemma DoneExtends(g: Grid, g': Grid, f: Flow, i: nat, at: seq<Position>, before: nat, more: nat, mode: Mode, cycle: nat)
    requires Extends(g, g') && |g| == |g'| && FlowDone(g, f, i, at, before, mode, cycle) && before <= more
    ensures FlowDone(g', f, i, at, more, mode, cycle)
  {
    hide Extends, Misses, FlowInOrder, NoneInTime;
    InOrderExtends(g, g', f, i, at, before);
    MoreSlack(g', f, i, at, before, more);
    if |at| < |f.cells| {
      NoneInTimeStays(g, g', f, at, cycle);
    }
  }

  /** All cells of the flow are placed in order; in "infeasible" mode none is late, and in
      "enabled" mode the cells up to the first one that cannot be in time are placed. */
  ghost predicate FlowDone(g: Grid, f: Flow, i: nat, at: seq<Position>, before: nat, mode: Mode, cycle: nat) {
    && FlowInOrder(g, f, i, at, before)
    && (if mode == Enabled then |at| < |f.cells| ==> NoneInTime(g, f, at, cycle) else |at| == |f.cells|)
    && (mode != Disabled ==> forall j :: 0 <= j < |at| ==> !Misses(f, cycle, at[j].1))
  }

  ghost predicate AllDone(g: Grid, flows: seq<Flow>, at: seq<seq<Position>>, base: nat, mode: Mode, cycle: nat) {
    && |at| <= |flows|
    && forall i :: 0 <= i < |at| ==> FlowDone(g, flows[i], i, at[i], Backlog(flows, base, i), mode, cycle)
  }

  /** Counting on from its release, there is a timeslot in time for every cell of a flow and of the flows
      before it. */
  ghost predicate AllTimely(flows: seq<Flow>, base: nat, cycle: nat, slots: nat) {
    forall i :: 0 <= i < |flows| ==> Timely(flows[i], cycle, slots, flows[i].release + Backlog(flows, base, i + 1))
  }

  lemma TimelyHere(flows: seq<Flow>, base: nat, cycle: nat, slots: nat, i: nat, before: nat)
    requires i < |flows| && before <= Backlog(flows, base, i)
    ensures AllTimely(flows, base, cycle, slots) ==>
      Timely(flows[i], cycle, slots, flows[i].release + before + |flows[i].cells|)
  {
    BacklogNext(flows, base, i);
    hide Backlog;
    if AllTimely(flows, base, cycle, slots) {
      assert Timely(flows[i], cycle, slots, flows[i].release + Backlog(flows, base, i + 1));
    }
  }

  /** All cells of all flows so far. */
  ghost predicate AllCells(flows: seq<Flow>, at: seq<seq<Position>>) {
    |at| <= |flows| && forall i :: 0 <= i < |at| ==> |at[i]| == |flows[i].cells|
  }

  lemma AllCellsNext(flows: seq<Flow>, done: seq<seq<Position>>, here: seq<Position>)
    requires |done| < |flows|
    ensures AllCells(flows, done) && |here| == |flows[|done|].cells| ==> AllCells(flows, done + [here])
  {
  }

  lemma NothingDone(g: Grid, flows: seq<Flow>, base: nat, mode: Mode, cycle: nat)
    ensures AllDone(g, flows, [], base, mode, cycle) && IsLatest([], 0) && AllCells(flows, [])
    ensures Backlog(flows, base, 0) == base && Extends(g, g)
  {
  }

  lemma StopsAt(g: Grid, g': Grid, slots: nat, flows: seq<Flow>, done: seq<seq<Position>>, here: seq<Position>, base: nat,
                before: nat, mode: Mode, cycle: nat, o: Outcome)
    requires Extends(g, g') && |g| == |g'| && AllDone(g, flows, done, base, mode, cycle) && |done| < |flows|
    requires before <= Backlog(flows, base, |done|) && FlowInOrder(g', flows[|done|], |done|, here, before)
    requires if o == Missed then MissesNext(g', slots, flows[|done|], here, cycle)
      else NoneForNext(g', slots, flows[|done|], here, mode)
    ensures StoppedAt(g', slots, flows, done + [here], base, mode, cycle, o)
  {
    hide Extends, Backlog, FlowDone, FlowInOrder, MissesNext, NoneForNext;
    var i, at := |done|, done + [here];
    AllDoneExtends(g, g', flows, done, base, mode, cycle);
    MoreSlack(g', flows[i], i, here, before, Backlog(flows, base, i));
    assert at[..i] == done;
  }

  lemma AllDoneExtends(g: Grid, g': Grid, flows: seq<Flow>, at: seq<seq<Position>>, base: nat, mode: Mode, cycle: nat)
    requires Extends(g, g') && |g| == |g'| && AllDone(g, flows, at, base, mode, cycle)
    ensures AllDone(g', flows, at, base, mode, cycle)
  {
    hide Extends, FlowDone, Backlog;
    forall i | 0 <= i < |at|
      ensures FlowDone(g', flows[i], i, at[i], Backlog(flows, base, i), mode, cycle)
    {
      DoneExtends(g, g', flows[i], i, at[i], Backlog(flows, base, i), Backlog(flows, base, i), mode, cycle);
    }
  }

  lemma AllDoneAppend(g: Grid, g': Grid, flows: seq<Flow>, at: seq<seq<Position>>, here: seq<Position>,
                      base: nat, before: nat, mode: Mode, cycle: nat)
    requires Extends(g, g') && |g| == |g'| && AllDone(g, flows, at, base, mode, cycle) && |at| < |flows|
    requires FlowDone(g', flows[|at|], |at|, here, before, mode, cycle) && before <= Backlog(flows, base, |at|)
    ensures AllDone(g', flows, at + [here], base, mode, cycle)
  {
    AllDoneExtends(g, g', flows, at, base, mode, cycle);
    ExtendsSelf(g');
    hide Extends, FlowDone, Backlog;
    DoneExtends(g', g', flows[|at|], |at|, here, before, Backlog(flows, base, |at|), mode, cycle);
  }

  /** The flows before the last one in `at` are done; of that one the cells in `at` are placed, and the
      next one is too late, or has no timeslot left. */
  ghost predicate StoppedAt(g: Grid, slots: nat, flows: seq<Flow>, at: seq<seq<Position>>, base: nat, mode: Mode,
                            cycle: nat, o: Outcome) {
    && 0 < |at| <= |flows|
    && var i := |at| - 1;
    && AllDone(g, flows, at[..i], base, mode, cycle)
    && FlowInOrder(g, flows[i], i, at[i], Backlog(flows, base, i))
    && if o == Missed then MissesNext(g, slots, flows[i], at[i], cycle) else NoneForNext(g, slots, flows[i], at[i], mode)
  }

  /** The number of cells placed before flow i has its turn, at most. */
  ghost function Backlog(flows: seq<Flow>, base: nat, i: nat): nat
    requires i <= |flows|
  {
    if i == 0 then base else Backlog(flows, base, i - 1) + |flows[i - 1].cells|
  }

  lemma ExtendsSelf(g: Grid)
    ensures Extends(g, g)
  {
  }

  lemma ExtendsTrans(g: Grid, g1: Grid, g2: Grid)
    requires Extends(g, g1) && Extends(g1, g2)
    ensures Extends(g, g2)
  {
    forall c, t {:trigger At(g2, c, t)} | At(g, c, t).Some?
      ensures At(g2, c, t) == At(g, c, t)
    {
      assert At(g1, c, t) == At(g, c, t);
    }
  }

  lemma MoreSlack(g: Grid, f: Flow, i: nat, at: seq<Position>, before: nat, more: nat)
    requires FlowInOrder(g, f, i, at, before) && before <= more
    ensures FlowInOrder(g, f, i, at, more)
  {
    forall j | 0 <= j < |at|
      ensures CellInOrder(g, f, i, at, more, j)
    {
      assert CellInOrder(g, f, i, at, before, j);
    }
  }

  lemma ValidMeans(s: Schedule)
    requires s.Valid()
    ensures Rect(s.grid, s.slots) && 0 < |s.grid| && PrefixOccupied(s.grid) && Used(s.grid, s.slots) <= s.placed
  {
  }

  lemma FilledJoin(g: Grid, lo: nat, mid: nat, hi: nat)
    requires FilledFrom(g, lo, mid) && FilledFrom(g, mid, hi)
    ensures FilledFrom(g, lo, hi)
  {
  }

  lemma {:induction false} NothingUsed(g: Grid, n: nat)
    requires forall t {:trigger At(g, 0, t)} :: At(g, 0, t) == None
    ensures Used(g, n) == 0
  {
    if n > 0 {
      NothingUsed(g, n - 1);
    }
  }

  /** Channel 0 is occupied throughout [lo, hi). */
  ghost predicate FilledFrom(g: Grid, lo: nat, hi: nat) {
    forall t {:trigger At(g, 0, t)} :: lo <= t < hi ==> At(g, 0, t).Some?
  }

  /** If the search finds nothing, all slots from the release of the flow on are in use. */
  lemma NoneLeft(g: Grid, lo: nat, release: nat, slots: nat, placed: nat)
    requires FilledFrom(g, lo, release) && FilledFrom(g, release, slots) && Used(g, slots) <= placed
    ensures slots <= lo + placed
  {
    if lo <= slots {
      UsedRun(g, lo, slots, slots);
    }
  }

  lemma FilledSoFar(g: Grid, lo: nat, release: nat, t: nat, slots: nat, placed: nat)
    requires FilledFrom(g, lo, release) && FilledFrom(g, release, t) && t < slots && Used(g, slots) <= placed
    ensures t <= lo + placed
  {
    if lo <= t {
      UsedRun(g, lo, t, slots);
    }
  }

  /** Placing on the first free channel of timeslot t fills it on channel 0. */
  lemma FilledOneMore(g: Grid, g': Grid, lo: nat, c: nat, t: nat)
    requires Extends(g, g') && FilledFrom(g, lo, t) && At(g', c, t).Some?
    requires c == 0 || At(g, 0, t).Some?
    ensures FilledFrom(g', lo, t + 1)
  {
  }

  /** A blocked timeslot holds at least one cell, so it holds one on channel 0. */
  lemma BlockedIsUsed(g: Grid, t: int, p: seq<int>)
    requires 0 < |g| && PrefixOccupied(g) && Blocked(g, t, p)
    ensures At(g, 0, t).Some?
  {
    if !Clear(g, t, p) {
      var c :| At(g, c, t).Some?;
      assert c == 0 || 0 < c;
    }
  }

  lemma BlockedFills(g: Grid, hi: nat, p: seq<int>, lo: nat)
    requires 0 < |g| && PrefixOccupied(g) && BlockedFrom(g, hi, p, lo)
    ensures FilledFrom(g, lo, hi)
  {
    forall t {:trigger At(g, 0, t)} | lo <= t < hi ensures At(g, 0, t).Some? {
      BlockedIsUsed(g, t, p);
    }
  }

  /** Cell j of a flow is in time, where it was put, and in the grid that is left of `g`. */
  ghost predicate InTime(g: Grid, f: Flow, i: nat, at: seq<Position>, before: nat, cycle: nat, j: nat)
    requires j < |at| && |at| == |f.cells|
  {
    var (c, t) := at[j];
    && f.release <= t < f.release + f.deadline && t < cycle
    && t <= f.release + before + j
    && (0 < j ==> at[j - 1].1 < t)
    && At(Truncate(g, cycle), c, t) == Some(Cell(i, j, f.cells[j]))
  }

  lemma DoneIsInTime(g: Grid, slots: nat, f: Flow, i: nat, at: seq<Position>, before: nat, cycle: nat, j: nat)
    requires Rect(g, slots) && FlowDone(g, f, i, at, before, Infeasible, cycle) && 1 < cycle && j < |f.cells|
    ensures |at| == |f.cells| && InTime(g, f, i, at, before, cycle, j)
  {
    assert CellInOrder(g, f, i, at, before, j);
    StartsAfterRelease(g, f, i, at, before, j);
  }

  /** EDF and RMS in "infeasible" mode with a hyper-period above 1: when they return, every
      cell of every flow lies within its deadline and below the hyper-period, in strictly
      increasing timeslots, at most as many slots after its earliest start as cells were
      placed before it, and survives the truncation to the hyper-period. */
  lemma InTimeAndKept(g: Grid, slots: nat, flows: seq<Flow>, at: seq<seq<Position>>, base: nat, cycle: nat, i: nat, j: nat)
    requires Rect(g, slots) && AllDone(g, flows, at, base, Infeasible, cycle) && 1 < cycle
    requires i < |at| && j < |flows[i].cells|
    ensures |at[i]| == |flows[i].cells| && InTime(g, flows[i], i, at[i], Backlog(flows, base, i), cycle, j)
  {
    assert FlowDone(g, flows[i], i, at[i], Backlog(flows, base, i), Infeasible, cycle);
    hide Backlog, FlowDone, InTime;
    DoneIsInTime(g, slots, flows[i], i, at[i], Backlog(flows, base, i), cycle, j);
  }

  /** The same for C-LLF, with the flows in the order of their turns. */
  lemma InTimeByLaxity(g: Grid, slots: nat, flows: seq<Flow>, order: seq<nat>, at: seq<seq<Position>>, base: nat,
                       cycle: nat, k: nat, j: nat)
    requires Rect(g, slots) && AllTurnsDone(g, flows, order, at, base, Infeasible, cycle) && 1 < cycle
    requires k < |order| && j < |flows[order[k]].cells|
    ensures |at[k]| == |flows[order[k]].cells|
    ensures InTime(g, flows[order[k]], order[k], at[k], Backlog(Reordered(flows, order), base, k), cycle, j)
  {
    assert TurnDone(g, flows, order, at, base, Infeasible, cycle, k);
    hide Backlog, FlowDone, InTime;
    DoneIsInTime(g, slots, flows[order[k]], order[k], at[k], Backlog(Reordered(flows, order), base, k), cycle, j);
  }

  /** The timeslots that are kept in the end: those of the cycle, or with cycle 1 those up to the
      last one that the algorithm has noted. */
  function Kept(cycle: nat, lastTimeslot: nat): nat {
    if cycle > 1 then cycle else lastTimeslot + 1
  }

  /** C-LLF notes no last timeslot. With cycle 1 it therefore loses every cell but those at
      timeslot 0: of each flow all cells except the first, and that one too unless it is at 0. */
  lemma LaxityCutsOff(g: Grid, flows: seq<Flow>, order: seq<nat>, at: seq<seq<Position>>, base: nat, mode: Mode,
                      k: nat, j: nat)
    requires AllTurnsDone(g, flows, order, at, base, mode, 1) && mode != Enabled
    requires k < |order| && j < |flows[order[k]].cells|
    ensures |at[k]| == |flows[order[k]].cells|
    ensures var (c, t) := at[k][j];
            && At(g, c, t) == Some(Cell(order[k], j, flows[order[k]].cells[j]))
            && (At(Truncate(g, Kept(1, 0)), c, t) != None <==> t == 0)
            && (t == 0 ==> j == 0)
  {
    assert TurnDone(g, flows, order, at, base, mode, 1, k);
    assert CellInOrder(g, flows[order[k]], order[k], at[k], Backlog(Reordered(flows, order), base, k), j);
  }

  lemma {:induction false} StartsAfterRelease(g: Grid, f: Flow, i: nat, at: seq<Position>, before: nat, j: nat)
    requires FlowInOrder(g, f, i, at, before) && j < |at|
    ensures f.release <= at[j].1
  {
    assert CellInOrder(g, f, i, at, before, j);
    if j > 0 {
      StartsAfterRelease(g, f, i, at, before, j - 1);
    }
  }

  /** The rows cut to their first n timeslots. */
  function Truncate(g: Grid, n: nat): Grid {
    seq(|g|, c requires 0 <= c < |g| => if n <= |g[c]| then g[c][..n] else g[c])
  }

  lemma TruncateKeeps(g: Grid, n: nat)
    requires PrefixOccupied(g) && ConflictFree(g)
    ensures forall c, t {:trigger At(Truncate(g, n), c, t)} :: At(Truncate(g, n), c, t) == if t < n then At(g, c, t) else None
    ensures PrefixOccupied(Truncate(g, n)) && ConflictFree(Truncate(g, n))
  {
    var h := Truncate(g, n);
    assert forall c, t {:trigger At(h, c, t)} :: At(h, c, t) == if t < n then At(g, c, t) else None;
    hide Truncate;
    forall c, d, t {:trigger At(h, c, t), At(h, d, t)} | 0 <= c < d && At(h, d, t).Some?
      ensures At(h, c, t).Some?
    {
      assert At(g, d, t).Some?;
    }
    forall c, d, t {:trigger At(h, c, t), At(h, d, t)} | c != d && At(h, c, t).Some? && At(h, d, t).Some?
      ensures Disjoint(At(h, c, t).value.participants, At(h, d, t).value.participants)
    {
      assert At(g, c, t) == At(h, c, t) && At(g, d, t) == At(h, d, t);
    }
  }

  // ---------------------------------------------------------------------------
  // EDF and RMS as a whole

  /** All cells placed are among the timeslots that are kept. */
  ghost predicate AllKept(at: seq<seq<Position>>, last: nat) {
    forall i :: 0 <= i < |at| ==> Upto(at[i], last)
  }

  /** The cells placed of a flow are still there, apart from those cut off. */
  ghost predicate FlowLeft(h: Grid, f: Flow, i: nat, at: seq<Position>, kept: nat) {
    && |at| <= |f.cells|
    && forall j :: 0 <= j < |at| && at[j].1 < kept ==> At(h, at[j].0, at[j].1) == Some(Cell(i, j, f.cells[j]))
  }

  lemma FlowIsLeft(g: Grid, h: Grid, f: Flow, i: nat, at: seq<Position>, before: nat, mode: Mode, cycle: nat, kept: nat)
    requires FlowDone(g, f, i, at, before, mode, cycle)
    requires forall c, t {:trigger At(h, c, t)} :: At(h, c, t) == if t < kept then At(g, c, t) else None
    ensures FlowLeft(h, f, i, at, kept)
  {
    forall j | 0 <= j < |at| && at[j].1 < kept
      ensures At(h, at[j].0, at[j].1) == Some(Cell(i, j, f.cells[j]))
    {
      assert CellInOrder(g, f, i, at, before, j);
    }
  }

  /** A cell in time lies below the cycle. */
  lemma InTimeIsKept(g: Grid, flows: seq<Flow>, at: seq<seq<Position>>, base: nat, mode: Mode, cycle: nat, last: nat)
    requires AllDone(g, flows, at, base, mode, cycle) && IsLatest(at, last) && (cycle <= 1 || mode != Disabled)
    ensures AllKept(at, Kept(cycle, last) - 1)
  {
    hide Backlog, FlowInOrder, NoneInTime;
    forall i | 0 <= i < |at| ensures Upto(at[i], Kept(cycle, last) - 1) {
      assert FlowDone(g, flows[i], i, at[i], Backlog(flows, base, i), mode, cycle);
    }
  }

  /** The final loop over the channels for EDF, RMS and C-LLF. */
  method CutGrid(g: Grid, slots: nat, n: nat) returns (h: Grid)
    requires Rect(g, slots) && n <= slots
    ensures h == Truncate(g, n) && Rect(h, n) && |h| == |g|
  {
    h := [];
    for c := 0 to |g|
      invariant |h| == c && forall d :: 0 <= d < c ==> h[d] == g[d][..n]
    {
      h := h + [g[c][..n]];
    }
  }

  /** The placement, the choice of the last timeslot to keep, and the cut. The result is None where a
      timeslot beyond the grid is to be kept, which is an IndexError. */
  method ScheduleAndCut(s: Schedule, flows: seq<Flow>, mode: Mode, cycle: nat)
    returns (o: Outcome, h: Option<Grid>, last: nat, ghost at: seq<seq<Position>>)
    requires s.Valid()
    modifies s
    ensures o == Placed ==> |at| == |flows| && AllDone(s.grid, flows, at, old(s.placed), mode, cycle) && IsLatest(at, last)
    ensures AllTimely(flows, old(s.placed), cycle, s.slots) ==> o == Placed && AllCells(flows, at)
    ensures h.Some? <==> o == Placed && if cycle > 1 then cycle <= s.slots else last < s.slots
    ensures h.Some? ==> |h.value| == |s.grid| && Rect(h.value, if cycle > 1 then cycle else last + 1)
    ensures AllTimely(flows, old(s.placed), cycle, s.slots) && 0 < s.slots && cycle <= s.slots ==> h.Some?
    ensures h.Some? ==> PrefixOccupied(h.value) && ConflictFree(h.value)
    ensures h.Some? ==> forall i :: 0 <= i < |flows| ==> FlowLeft(h.value, flows[i], i, at[i], Kept(cycle, last))
    ensures h.Some? && (cycle <= 1 || mode != Disabled) ==> AllKept(at, Kept(cycle, last) - 1)
  {
    hide PrefixOccupied, ConflictFree, FlowDone, FlowLeft, IsLatest, AllKept, AllTimely, AllCells, Truncate, At, Used, StoppedAt,
      Backlog, Extends;
    o, last, at := s.ScheduleInOrder(flows, mode, cycle);
    if o != Placed || Kept(cycle, last) > s.slots {
      return o, None, last, at;
    }
    var n := Kept(cycle, last);
    var cut := CutGrid(s.grid, s.slots, n);
    TruncateKeeps(s.grid, n);
    forall i | 0 <= i < |flows| ensures FlowLeft(cut, flows[i], i, at[i], n) {
      FlowIsLeft(s.grid, cut, flows[i], i, at[i], Backlog(flows, old(s.placed), i), mode, cycle, n);
    }
    if cycle <= 1 || mode != Disabled {
      InTimeIsKept(s.grid, flows, at, old(s.placed), mode, cycle, last);
    }
    h := Some(cut);
  }
}
