/** R-LPF of Master/Python/scheduling.py: flows are laid out from their last cell to their
    first, and the finished grid is reversed. */
module ReversedPlacement {
  import opened Wrappers
  import opened Scheduler
  import F = Flow

  /** The nodes are those of all cells in timeslot t. */
  ghost predicate Lists(g: Grid, t: int, nodes: seq<int>) {
    && (forall c, x {:trigger x in At(g, c, t).value.participants} ::
          At(g, c, t).Some? && x in At(g, c, t).value.participants ==> x in nodes)
    && (forall x :: x in nodes ==> exists c :: At(g, c, t).Some? && x in At(g, c, t).value.participants)
  }

  /** used[t] lists the nodes of all cells in timeslot t. */
  ghost predicate Tracks(g: Grid, slots: nat, used: seq<seq<int>>) {
    |used| == slots && forall t :: 0 <= t < slots ==> Lists(g, t, used[t])
  }

  /** Timeslot t has a free channel and none of the nodes is busy in it. */
  ghost predicate Open(g: Grid, used: seq<seq<int>>, t: nat, p: seq<int>)
    requires t < |used|
  {
    (exists c :: 0 <= c < |g| && At(g, c, t) == None) && Disjoint(p, used[t])
  }

  /** `schedulable_in_slot` */
  method SchedulableInSlot(g: Grid, slots: nat, used: seq<seq<int>>, t: nat, p: seq<int>) returns (b: bool)
    requires Rect(g, slots) && |used| == slots && t < slots
    ensures b <==> Open(g, used, t, p)
  {
    var slotAvailable := false;
    for c := 0 to |g|
      invariant slotAvailable <==> exists d :: 0 <= d < c && At(g, d, t) == None
    {
      assert At(g, c, t) == g[c][t];
      if g[c][t] == None {
        slotAvailable := true;
      }
    }
    if !slotAvailable {
      return false;
    }
    if |used[t]| == 0 {
      return true;
    }
    for i := 0 to |p|
      invariant forall j :: 0 <= j < i ==> p[j] !in used[t]
    {
      var x := p[i];
      if x in used[t] {
        assert x in p;
        return false;
      }
    }
    return true;
  }

  /** `available_channel_in_slot`; with no free channel it returns False, which indexes as 0. */
  method AvailableChannel(g: Grid, slots: nat, t: nat) returns (c: nat)
    requires Rect(g, slots) && t < slots
    ensures c < |g|
    ensures (exists d :: 0 <= d < |g| && At(g, d, t) == None) ==> At(g, c, t) == None
    ensures At(g, c, t) == None ==> forall d {:trigger At(g, d, t)} :: 0 <= d < c ==> At(g, d, t).Some?
  {
    for d := 0 to |g|
      invariant forall e {:trigger At(g, e, t)} :: 0 <= e < d ==> At(g, e, t).Some?
    {
      assert At(g, d, t) == g[d][t];
      if g[d][t] == None {
        return d;
      }
    }
    assert At(g, 0, t).Some?;
    return 0;
  }

  /** The loop that advances `insert_at_index`; None stands for the IndexError at the end of
      the grid. */
  method NextOpenSlot(g: Grid, slots: nat, used: seq<seq<int>>, p: seq<int>, from: nat, notBefore: nat)
    returns (t: Option<nat>)
    requires Rect(g, slots) && |used| == slots
    ensures t.Some? ==> from <= t.value < slots && notBefore <= t.value && Open(g, used, t.value, p)
    ensures t.Some? ==> forall u :: from <= u < t.value ==> !Open(g, used, u, p) || u < notBefore
    ensures t.None? ==> forall u :: from <= u < slots ==> !Open(g, used, u, p) || u < notBefore
  {
    var at := from;
    while at < slots
      invariant from <= at
      invariant forall u :: from <= u < at && u < slots ==> !Open(g, used, u, p) || u < notBefore
    {
      var open := SchedulableInSlot(g, slots, used, at, p);
      if open && at >= notBefore {
        return Some(at);
      }
      at := at + 1;
    }
    return None;
  }

  /** That is, the timeslot can take the cell. */
  lemma OpenIsFree(g: Grid, slots: nat, used: seq<seq<int>>, t: nat, p: seq<int>)
    requires Tracks(g, slots, used) && t < slots
    ensures Open(g, used, t, p) <==> !Blocked(g, t, p)
  {
    assert Lists(g, t, used[t]);
    if !Disjoint(p, used[t]) {
      var x :| x in p && x in used[t];
      var c :| At(g, c, t).Some? && x in At(g, c, t).value.participants;
      assert !Clear(g, t, p);
    } else {
      assert Clear(g, t, p);
    }
    assert (exists c :: 0 <= c < |g| && At(g, c, t) == None) <==> !(forall c {:trigger At(g, c, t)} :: 0 <= c < |g| ==> At(g, c, t).Some?);
  }

  function Later(a: nat, b: nat): nat {
    if a < b then b else a
  }

  /** A free channel, the first one, in the first timeslot from lo on that can take the cell. */
  ghost predicate Room(g: Grid, slots: nat, p: seq<int>, lo: nat, pos: Position) {
    var (c, t) := pos;
    && c < |g| && FirstOpen(g, slots, p, lo, t) && At(g, c, t) == None && Clear(g, t, p)
    && forall d {:trigger At(g, d, t)} :: 0 <= d < c ==> At(g, d, t).Some?
  }

  /** The slot and channel a cell goes to. */
  method NextPosition(g: Grid, slots: nat, used: seq<seq<int>>, p: seq<int>, from: nat, notBefore: nat)
    returns (r: Option<Position>)
    requires Rect(g, slots) && Tracks(g, slots, used)
    ensures r.Some? ==> Room(g, slots, p, Later(from, notBefore), r.value)
    ensures r.None? ==> BlockedFrom(g, slots, p, Later(from, notBefore))
  {
    var next := NextOpenSlot(g, slots, used, p, from, notBefore);
    forall u: nat | u < slots ensures Open(g, used, u, p) <==> !Blocked(g, u, p) {
      OpenIsFree(g, slots, used, u, p);
    }
    hide Tracks, Open;
    if next.None? {
      return None;
    }
    var c := AvailableChannel(g, slots, next.value);
    return Some((c, next.value));
  }

  /** Where the search for the next cell begins: at the last cell that was placed. */
  ghost function Front(at: seq<Position>, notBefore: nat): nat {
    if at == [] then notBefore else at[0].1
  }

  /** Cell j + k of the flow is where `at[k]` says: in the first timeslot that can take it from that of
      the next cell on the path on. */
  ghost predicate LaidBack(g: Grid, f: Flow, i: nat, at: seq<Position>, notBefore: nat, j: nat, k: nat)
    requires k < |at| && j + k < |f.cells|
  {
    var (c, t) := at[k];
    && At(g, c, t) == Some(Cell(i, j + k, f.cells[j + k]))
    && Front(at[k + 1..], notBefore) <= t && BlockedFrom(g, t, f.cells[j + k], Front(at[k + 1..], notBefore))
  }

  /** The cells from index j on are where `at` says, each strictly before the one that
      precedes it on the path if the two share a node. */
  ghost predicate Backwards(g: Grid, f: Flow, i: nat, at: seq<Position>, notBefore: nat, j: nat) {
    && j <= |f.cells| && |at| == |f.cells| - j
    && (forall k :: 0 <= k < |at| ==> LaidBack(g, f, i, at, notBefore, j, k))
    && (forall k :: 0 <= k < |at| - 1 && F.Share(f.cells[j + k], f.cells[j + k + 1]) ==> at[k + 1].1 < at[k].1)
  }

  lemma BackwardsExtends(g: Grid, g': Grid, f: Flow, i: nat, at: seq<Position>, notBefore: nat, j: nat)
    requires Extends(g, g') && |g| == |g'| && Backwards(g, f, i, at, notBefore, j)
    ensures Backwards(g', f, i, at, notBefore, j)
  {
    hide BlockedFrom;
    forall k | 0 <= k < |at|
      ensures LaidBack(g', f, i, at, notBefore, j, k)
    {
      assert LaidBack(g, f, i, at, notBefore, j, k);
      BlockedFromStays(g, g', at[k].1, f.cells[j + k], Front(at[k + 1..], notBefore));
    }
  }

  lemma BackwardsPrepend(g: Grid, f: Flow, i: nat, at: seq<Position>, notBefore: nat, j: nat, pos: Position)
    requires 0 < j && Backwards(g, f, i, at, notBefore, j)
    requires At(g, pos.0, pos.1) == Some(Cell(i, j - 1, f.cells[j - 1]))
    requires Front(at, notBefore) <= pos.1 && BlockedFrom(g, pos.1, f.cells[j - 1], Front(at, notBefore))
    requires at != [] && F.Share(f.cells[j - 1], f.cells[j]) ==> at[0].1 < pos.1
    ensures Backwards(g, f, i, [pos] + at, notBefore, j - 1)
  {
    hide BlockedFrom;
    var more, m := [pos] + at, j - 1;
    forall k | 0 <= k < |more|
      ensures LaidBack(g, f, i, more, notBefore, m, k)
    {
      if k == 0 {
        assert more[1..] == at;
      } else {
        assert more[k] == at[k - 1] && more[k + 1..] == at[k..];
        assert LaidBack(g, f, i, at, notBefore, j, k - 1);
      }
    }
    forall k | 0 <= k < |more| - 1 && F.Share(f.cells[j - 1 + k], f.cells[j - 1 + k + 1])
      ensures more[k + 1].1 < more[k].1
    {
      assert more[k + 1] == at[k];
      assert 0 < k ==> more[k] == at[k - 1] && at[k - 1 + 1] == at[k];
    }
  }

  lemma PlaceTracks(g: Grid, g': Grid, slots: nat, used: seq<seq<int>>, c: nat, t: nat, cell: Cell)
    requires Tracks(g, slots, used) && t < slots && At(g, c, t) == None
    requires forall d, u {:trigger At(g', d, u)} :: At(g', d, u) == if d == c && u == t then Some(cell) else At(g, d, u)
    ensures Tracks(g', slots, used[t := used[t] + cell.participants])
  {
    var used' := used[t := used[t] + cell.participants];
    forall u | 0 <= u < slots ensures Lists(g', u, used'[u]) {
      assert Lists(g, u, used[u]);
      if u == t {
        ListsMore(g, g', c, t, used[t], cell);
      } else {
        ListsSame(g, g', u, used[u]);
      }
    }
  }

  lemma ListsSame(g: Grid, g': Grid, t: nat, nodes: seq<int>)
    requires Lists(g, t, nodes) && forall d {:trigger At(g', d, t)} :: At(g', d, t) == At(g, d, t)
    ensures Lists(g', t, nodes)
  {
    forall x | x in nodes ensures exists d :: At(g', d, t).Some? && x in At(g', d, t).value.participants {
      var d :| At(g, d, t).Some? && x in At(g, d, t).value.participants;
      assert At(g', d, t) == At(g, d, t);
    }
  }

  lemma ListsMore(g: Grid, g': Grid, c: nat, t: nat, nodes: seq<int>, cell: Cell)
    requires Lists(g, t, nodes) && At(g, c, t) == None
    requires forall d {:trigger At(g', d, t)} :: At(g', d, t) == if d == c then Some(cell) else At(g, d, t)
    ensures Lists(g', t, nodes + cell.participants)
  {
    forall x | x in nodes + cell.participants
      ensures exists d :: At(g', d, t).Some? && x in At(g', d, t).value.participants
    {
      if x in nodes {
        var d :| At(g, d, t).Some? && x in At(g, d, t).value.participants;
        assert At(g', d, t) == At(g, d, t);
      } else {
        assert At(g', c, t) == Some(cell);
      }
    }
  }

  /** The cells before index j, searched for from timeslot lo on in an unchanging grid, run out of
      timeslots. */
  ghost predicate RunsOut(g: Grid, slots: nat, f: Flow, j: nat, lo: nat)
    requires j <= |f.cells|
    decreases j, 1
  {
    0 < j && (BlockedFrom(g, slots, f.cells[j - 1], lo) || exists t :: RunsOutLater(g, slots, f, j, lo, t))
  }

  ghost predicate RunsOutLater(g: Grid, slots: nat, f: Flow, j: nat, lo: nat, t: nat)
    requires 0 < j <= |f.cells|
    decreases j, 0
  {
    FirstOpen(g, slots, f.cells[j - 1], lo, t) && RunsOut(g, slots, f, j - 1, t)
  }

  /** The first timeslot that can take the next cell is too late. */
  ghost predicate MissesBack(g: Grid, slots: nat, f: Flow, at: seq<Position>, notBefore: nat, cycle: nat) {
    |at| < |f.cells| &&
    exists t :: FirstOpen(g, slots, f.cells[|f.cells| - |at| - 1], Front(at, notBefore), t) && Misses(f, cycle, t)
  }

  /** The next cell cannot go to any timeslot in time. */
  ghost predicate NoneInTimeBack(g: Grid, f: Flow, at: seq<Position>, notBefore: nat, cycle: nat)
    requires |at| < |f.cells|
  {
    var p := f.cells[|f.cells| - |at| - 1];
    forall t {:trigger Blocked(g, t, p)} :: Front(at, notBefore) <= t && !Misses(f, cycle, t) ==> Blocked(g, t, p)
  }

  lemma NoneInTimeBackStays(g: Grid, g': Grid, f: Flow, at: seq<Position>, notBefore: nat, cycle: nat)
    requires Extends(g, g') && |g| == |g'| && |at| < |f.cells| && NoneInTimeBack(g, f, at, notBefore, cycle)
    ensures NoneInTimeBack(g', f, at, notBefore, cycle)
  {
    var p := f.cells[|f.cells| - |at| - 1];
    forall t {:trigger Blocked(g', t, p)} | Front(at, notBefore) <= t && !Misses(f, cycle, t)
      ensures Blocked(g', t, p)
    {
      BlockedStays(g, g', t, p);
    }
  }

  lemma MissedBackNotInTime(g: Grid, slots: nat, f: Flow, at: seq<Position>, notBefore: nat, cycle: nat)
    requires MissesBack(g, slots, f, at, notBefore, cycle)
    ensures NoneInTimeBack(g, f, at, notBefore, cycle)
  {
    hide Blocked;
  }

  lemma IsLastPrepend(at: seq<Position>, before: nat, last: nat, pos: Position)
    requires IsLast(at, before, last)
    ensures IsLast([pos] + at, before, if pos.1 > last then pos.1 else last)
  {
    var more := [pos] + at;
    assert more[0] == pos;
    forall k | 0 <= k < |more| ensures more[k].1 <= if pos.1 > last then pos.1 else last {
      assert 0 < k ==> more[k] == at[k - 1];
    }
    if pos.1 <= last && last != before {
      var k :| 0 <= k < |at| && at[k].1 == last;
      assert more[k + 1] == at[k];
    }
  }

  /** What holds between the cells of the loop: either all so far are placed, or in "enabled" mode one
      was too late. */
  ghost predicate Going(g: Grid, slots: nat, f: Flow, at: seq<Position>, notBefore: nat, mode: Mode, cycle: nat, j: nat,
                        insertAt: nat, cnmid: bool) {
    && j <= |f.cells| && |at| <= |f.cells| - j
    && (RunsOut(g, slots, f, j, Later(insertAt, notBefore)) ==> RunsOut(g, slots, f, |f.cells| - |at|, Front(at, notBefore)))
    && if |at| == |f.cells| - j then Later(insertAt, notBefore) == Front(at, notBefore) && (mode == Enabled ==> !cnmid)
       else mode == Enabled && cnmid && MissesBack(g, slots, f, at, notBefore, cycle)
  }

  /** The next cell is passed over. */
  lemma GoingPast(g: Grid, slots: nat, f: Flow, at: seq<Position>, notBefore: nat, cycle: nat, j: nat,
                  insertAt: nat, cnmid: bool, t: nat)
    requires 0 < j && Going(g, slots, f, at, notBefore, Enabled, cycle, j, insertAt, cnmid)
    requires FirstOpen(g, slots, f.cells[j - 1], Later(insertAt, notBefore), t) && (cnmid || Misses(f, cycle, t))
    ensures Going(g, slots, f, at, notBefore, Enabled, cycle, j - 1, t, true)
  {
    hide Blocked, BlockedFrom, Misses;
    assert Later(t, notBefore) == t;
    assert RunsOut(g, slots, f, j - 1, t) ==> RunsOutLater(g, slots, f, j, Later(insertAt, notBefore), t);
  }

  /** The next cell is placed. */
  lemma GoingOn(g: Grid, g': Grid, slots: nat, f: Flow, i: nat, at: seq<Position>, notBefore: nat, mode: Mode, cycle: nat, j: nat,
                insertAt: nat, cnmid: bool, cnmid': bool, pos: Position)
    requires 0 < j && Going(g, slots, f, at, notBefore, mode, cycle, j, insertAt, cnmid) && (mode == Enabled ==> !cnmid && !cnmid')
    requires Extends(g, g') && |g| == |g'| && Backwards(g, f, i, at, notBefore, |f.cells| - |at|)
    requires FirstOpen(g, slots, f.cells[j - 1], Later(insertAt, notBefore), pos.1) && Clear(g, pos.1, f.cells[j - 1])
    requires At(g', pos.0, pos.1) == Some(Cell(i, j - 1, f.cells[j - 1]))
    ensures j - 1 == |f.cells| - |[pos] + at| && Backwards(g', f, i, [pos] + at, notBefore, j - 1)
    ensures Going(g', slots, f, [pos] + at, notBefore, mode, cycle, j - 1, pos.1, cnmid')
  {
    hide Blocked, BlockedFrom, Misses, RunsOut, Backwards, Clear, At;
    StepBack(g, g', f, i, at, notBefore, j, pos);
  }

  /** The cell before the one just placed goes strictly later if they share a node, because
      that node is busy in the slot just used. */
  lemma StepBack(g: Grid, g': Grid, f: Flow, i: nat, at: seq<Position>, notBefore: nat, j: nat, pos: Position)
    requires Extends(g, g') && |g| == |g'| && 0 < j && Backwards(g, f, i, at, notBefore, j)
    requires Front(at, notBefore) <= pos.1 && BlockedFrom(g, pos.1, f.cells[j - 1], Front(at, notBefore))
    requires Clear(g, pos.1, f.cells[j - 1]) && At(g', pos.0, pos.1) == Some(Cell(i, j - 1, f.cells[j - 1]))
    ensures Backwards(g', f, i, [pos] + at, notBefore, j - 1)
  {
    BackwardsExtends(g, g', f, i, at, notBefore, j);
    BlockedFromStays(g, g', pos.1, f.cells[j - 1], Front(at, notBefore));
    if at != [] && F.Share(f.cells[j - 1], f.cells[j]) {
      var x :| x in f.cells[j - 1] && x in f.cells[j];
      assert LaidBack(g, f, i, at, notBefore, j, 0);
    }
    hide BlockedFrom, Blocked;
    BackwardsPrepend(g', f, i, at, notBefore, j, pos);
  }

  /** Timeslots before `end` exist, and are in time if that matters. */
  predicate Fits(f: Flow, ignore: bool, cycle: nat, slots: nat, end: nat) {
    end <= slots && (ignore || Timely(f, cycle, slots, end))
  }

  lemma RunsOutNow(g: Grid, slots: nat, f: Flow, at: seq<Position>, notBefore: nat, mode: Mode, cycle: nat, j: nat,
                   insertAt: nat, cnmid: bool)
    requires 0 < j && Going(g, slots, f, at, notBefore, mode, cycle, j, insertAt, cnmid)
    requires BlockedFrom(g, slots, f.cells[j - 1], Later(insertAt, notBefore))
    ensures |at| < |f.cells| && RunsOut(g, slots, f, |f.cells| - |at|, Front(at, notBefore))
    ensures mode != Enabled ==> BlockedFrom(g, slots, f.cells[|f.cells| - |at| - 1], Front(at, notBefore))
  {
    hide BlockedFrom;
  }

  lemma MissesNow(g: Grid, slots: nat, f: Flow, at: seq<Position>, notBefore: nat, mode: Mode, cycle: nat, j: nat,
                  insertAt: nat, cnmid: bool, t: nat)
    requires 0 < j && Going(g, slots, f, at, notBefore, mode, cycle, j, insertAt, cnmid) && mode != Enabled
    requires FirstOpen(g, slots, f.cells[j - 1], Later(insertAt, notBefore), t) && Misses(f, cycle, t)
    ensures MissesBack(g, slots, f, at, notBefore, cycle)
  {
    hide FirstOpen, RunsOut;
  }

  lemma GoingEnds(g: Grid, slots: nat, f: Flow, at: seq<Position>, notBefore: nat, mode: Mode, cycle: nat, insertAt: nat, cnmid: bool)
    requires Going(g, slots, f, at, notBefore, mode, cycle, 0, insertAt, cnmid)
    ensures |at| <= |f.cells| && (|at| < |f.cells| ==> mode == Enabled && MissesBack(g, slots, f, at, notBefore, cycle))
  {
  }

  lemma FilledStays(g: Grid, g': Grid, lo: nat, hi: nat)
    requires Extends(g, g') && FilledFrom(g, lo, hi)
    ensures FilledFrom(g', lo, hi)
  {
  }

  lemma BackTo(g: Grid, g': Grid, g0: Grid)
    requires Extends(g0, g) && forall c, t {:trigger At(g', c, t)} :: At(g, c, t).Some? ==> At(g', c, t) == At(g, c, t)
    ensures Extends(g0, g') && Extends(g, g')
  {
    ExtendsTrans(g0, g, g');
  }

  /** The cells placed so far are laid out backwards, in the grid, and in time if that matters. */
  ghost predicate SoFar(g: Grid, slots: nat, f: Flow, i: nat, at: seq<Position>, notBefore: nat, ignore: bool, mode: Mode,
                        cycle: nat, before: nat, last: nat) {
    && |at| <= |f.cells| && Backwards(g, f, i, at, notBefore, |f.cells| - |at|) && IsLast(at, before, last)
    && (forall k :: 0 <= k < |at| ==> at[k].1 < slots)
    && (!ignore && mode != Disabled ==> forall k :: 0 <= k < |at| ==> !Misses(f, cycle, at[k].1))
  }

  /** All timeslots up to the one found are in use, so it is not far off. */
  lemma RoomIsNear(g: Grid, slots: nat, p: seq<int>, notBefore: nat, lo: nat, pos: Position, placed: nat)
    requires 0 < |g| && PrefixOccupied(g) && Used(g, slots) <= placed && FilledFrom(g, notBefore, lo)
    requires Room(g, slots, p, lo, pos)
    ensures pos.1 <= notBefore + placed && FilledFrom(g, notBefore, pos.1) && FirstOpen(g, slots, p, lo, pos.1)
  {
    hide Used, At, Clear, Blocked, PrefixOccupied;
    BlockedFills(g, pos.1, p, lo);
    hide BlockedFrom;
    FilledSoFar(g, notBefore, lo, pos.1, slots, placed);
    FilledJoin(g, notBefore, lo, pos.1);
  }

  lemma GoingFirst(g: Grid, slots: nat, f: Flow, i: nat, notBefore: nat, ignore: bool, mode: Mode, cycle: nat, last: nat)
    ensures Going(g, slots, f, [], notBefore, if ignore then Disabled else mode, cycle, |f.cells|, 0, false)
    ensures SoFar(g, slots, f, i, [], notBefore, ignore, mode, cycle, last, last)
    ensures FilledFrom(g, notBefore, Later(0, notBefore))
  {
  }

  /** Places a cell where the search has found room. */
  method LayCell(s: Schedule, used0: seq<seq<int>>, f: Flow, i: nat, j: nat, ghost lo: nat, pos: Position, ghost from: nat)
    returns (used: seq<seq<int>>)
    requires s.Valid() && Tracks(s.grid, s.slots, used0) && 0 < j <= |f.cells|
    requires Room(s.grid, s.slots, f.cells[j - 1], lo, pos) && FilledFrom(s.grid, from, pos.1)
    modifies s
    ensures s.Valid() && |s.grid| == |old(s.grid)| && s.placed == old(s.placed) + 1 && Tracks(s.grid, s.slots, used)
    ensures At(s.grid, pos.0, pos.1) == Some(Cell(i, j - 1, f.cells[j - 1])) && Extends(old(s.grid), s.grid)
    ensures FilledFrom(s.grid, from, pos.1)
  {
    assert |used0| == s.slots;
    hide Rect, PrefixOccupied, ConflictFree, Tracks, Clear, At, Put, FilledFrom, Blocked, BlockedFrom;
    ghost var was := s.grid;
    var p := f.cells[j - 1];
    s.Place(pos.0, pos.1, Cell(i, j - 1, p));
    PlaceTracks(was, s.grid, s.slots, used0, pos.0, pos.1, Cell(i, j - 1, p));
    ExtendsSelf(was);
    BackTo(was, s.grid, was);
    FilledStays(was, s.grid, from, pos.1);
    used := used0[pos.1 := used0[pos.1] + p];
  }

  lemma SoFarOn(g: Grid, g': Grid, slots: nat, f: Flow, i: nat, at: seq<Position>, notBefore: nat, ignore: bool, mode: Mode,
                cycle: nat, before: nat, last: nat, j: nat, insertAt: nat, cnmid: bool, cnmid': bool, pos: Position)
    requires SoFar(g, slots, f, i, at, notBefore, ignore, mode, cycle, before, last) && 0 < j
    requires var m := if ignore then Disabled else mode;
      Going(g, slots, f, at, notBefore, m, cycle, j, insertAt, cnmid) && (m == Enabled ==> !cnmid && !cnmid')
    requires Extends(g, g') && |g| == |g'| && Room(g, slots, f.cells[j - 1], Later(insertAt, notBefore), pos)
    requires At(g', pos.0, pos.1) == Some(Cell(i, j - 1, f.cells[j - 1]))
    requires !ignore && mode != Disabled ==> !Misses(f, cycle, pos.1)
    ensures SoFar(g', slots, f, i, [pos] + at, notBefore, ignore, mode, cycle, before, if pos.1 > last then pos.1 else last)
    ensures Going(g', slots, f, [pos] + at, notBefore, if ignore then Disabled else mode, cycle, j - 1, pos.1, cnmid')
    ensures Extends(g, g') && |[pos] + at| == |f.cells| - (j - 1)
  {
    hide Blocked, BlockedFrom, RunsOut, MissesBack, Backwards, IsLast, Clear, Extends, At, Misses;
    assert |at| == |f.cells| - j && pos.1 < slots;
    hide Going, FirstOpen;
    IsLastPrepend(at, before, last, pos);
    GoingOn(g, g', slots, f, i, at, notBefore, if ignore then Disabled else mode, cycle, j, insertAt, cnmid, cnmid', pos);
    var more := [pos] + at;
    forall k | 0 <= k < |more|
      ensures more[k].1 < slots && (!ignore && mode != Disabled ==> !Misses(f, cycle, more[k].1))
    {
      assert more[k] == if k == 0 then pos else at[k - 1];
    }
  }

  /** The loop over the cells of one flow, last to first. `at` lists where they went. */
  method PlaceBackwards(s: Schedule, used0: seq<seq<int>>, f: Flow, i: nat, notBefore: nat, ignore: bool, mode: Mode,
                        cycle: nat, last0: nat)
    returns (o: Outcome, used: seq<seq<int>>, last: nat, ghost at: seq<Position>)
    requires s.Valid() && Tracks(s.grid, s.slots, used0)
    modifies s
    ensures s.Valid() && |s.grid| == |old(s.grid)| && Extends(old(s.grid), s.grid) && Tracks(s.grid, s.slots, used)
    ensures s.placed == old(s.placed) + |at|
    ensures SoFar(s.grid, s.slots, f, i, at, notBefore, ignore, mode, cycle, last0, last)
    ensures o == Placed && |at| < |f.cells| ==> !ignore && mode == Enabled && MissesBack(s.grid, s.slots, f, at, notBefore, cycle)
    ensures o == Missed ==> !ignore && mode == Infeasible && MissesBack(s.grid, s.slots, f, at, notBefore, cycle)
    ensures o == NoSlot ==> RunsOut(s.grid, s.slots, f, |f.cells| - |at|, Front(at, notBefore))
    ensures o == NoSlot && (ignore || mode != Enabled) ==>
      |at| < |f.cells| && BlockedFrom(s.grid, s.slots, f.cells[|f.cells| - |at| - 1], Front(at, notBefore))
    ensures notBefore + old(s.placed) + |f.cells| <= s.slots && (ignore || mode != Enabled) ==> o != NoSlot
    ensures Fits(f, ignore, cycle, s.slots, notBefore + old(s.placed) + |f.cells|) ==> o == Placed && |at| == |f.cells|
    ensures o != Unfinished
  {
    hide Schedule.Valid, Rect, PrefixOccupied, ConflictFree, Tracks, Clear, Misses, Blocked, BlockedFrom, At, RunsOut, MissesBack, Extends, Put,
      NextOpen, Used, Going, FilledFrom, Front, Fits, Room, SoFar;
    used, last, at := used0, last0, [];
    var insertAt: nat := 0;
    var cnmid := false;
    var j := |f.cells|;
    ghost var m := if ignore then Disabled else mode;
    GoingFirst(s.grid, s.slots, f, i, notBefore, ignore, mode, cycle, last);
    ExtendsSelf(s.grid);
    while j > 0
      invariant 0 <= j <= |f.cells| && s.placed == old(s.placed) + |at|
      invariant s.Valid() && |s.grid| == |old(s.grid)| && Extends(old(s.grid), s.grid) && Tracks(s.grid, s.slots, used)
      invariant Going(s.grid, s.slots, f, at, notBefore, m, cycle, j, insertAt, cnmid)
      invariant SoFar(s.grid, s.slots, f, i, at, notBefore, ignore, mode, cycle, last0, last)
      invariant FilledFrom(s.grid, notBefore, Later(insertAt, notBefore))
      invariant Fits(f, ignore, cycle, s.slots, notBefore + old(s.placed) + |f.cells|) ==> |at| == |f.cells| - j && !cnmid
      decreases j
    {
      var p := f.cells[j - 1];
      ValidMeans(s);
      var next := NextPosition(s.grid, s.slots, used, p, insertAt, notBefore);
      ghost var lo, late := Later(insertAt, notBefore), cnmid;
      if next.None? {
        BlockedFills(s.grid, s.slots, p, lo);
        NoneLeft(s.grid, notBefore, lo, s.slots, s.placed);
        FitsNow(f, ignore, cycle, s.slots, notBefore + old(s.placed) + |f.cells|, 0);
        RunsOutNow(s.grid, s.slots, f, at, notBefore, m, cycle, j, insertAt, cnmid);
        return NoSlot, used, last, at;
      }
      var (c, t) := next.value;
      RoomIsNear(s.grid, s.slots, p, notBefore, lo, (c, t), s.placed);
      FitsNow(f, ignore, cycle, s.slots, notBefore + old(s.placed) + |f.cells|, t);
      if !ignore && Misses(f, cycle, t) {
        cnmid := true;
        if mode == Infeasible {
          MissesNow(s.grid, s.slots, f, at, notBefore, m, cycle, j, insertAt, late, t);
          return Missed, used, last, at;
        }
      }
      if ignore || mode != Enabled || !cnmid {
        ghost var was := s.grid;
        used := LayCell(s, used, f, i, j, Later(insertAt, notBefore), (c, t), notBefore);
        ExtendsTrans(old(s.grid), was, s.grid);
        SoFarOn(was, s.grid, s.slots, f, i, at, notBefore, ignore, mode, cycle, last0, last, j, insertAt, late, cnmid, (c, t));
        if t > last {
          last := t;
        }
        at := [(c, t)] + at;
      } else {
        GoingPast(s.grid, s.slots, f, at, notBefore, cycle, j, insertAt, late, t);
      }
      insertAt := t;
      j := j - 1;
    }
    GoingEnds(s.grid, s.slots, f, at, notBefore, m, cycle, insertAt, cnmid);
    o := Placed;
  }

  lemma FitsNow(f: Flow, ignore: bool, cycle: nat, slots: nat, end: nat, t: nat)
    ensures Fits(f, ignore, cycle, slots, end) ==> end <= slots && (t < end && !ignore ==> !Misses(f, cycle, t))
  {
  }

  /** When flow i begins: its instances are laid out one behind the other, a period apart. */
  function Offset(flows: seq<Flow>, i: nat): nat
    requires i < |flows|
  {
    if i == 0 || flows[i - 1].number != flows[i].number || flows[i].number == -1 then 0
    else Offset(flows, i - 1) + flows[i - 1].period
  }

  /** The cells of flow i are laid out from its last one on; in "enabled" mode up to the first that cannot
      be in time. */
  ghost predicate LaidOut(g: Grid, flows: seq<Flow>, i: nat, at: seq<Position>, ignore: bool, mode: Mode, cycle: nat)
    requires i < |flows|
  {
    var f := flows[i];
    && |at| <= |f.cells| && Backwards(g, f, i, at, Offset(flows, i), |f.cells| - |at|)
    && (|at| < |f.cells| ==> !ignore && mode == Enabled && NoneInTimeBack(g, f, at, Offset(flows, i), cycle))
    && (!ignore && mode != Disabled ==> forall k :: 0 <= k < |at| ==> !Misses(f, cycle, at[k].1))
  }

  ghost predicate AllBackwards(g: Grid, flows: seq<Flow>, at: seq<seq<Position>>, ignore: bool, mode: Mode, cycle: nat) {
    && |at| <= |flows|
    && forall i :: 0 <= i < |at| ==> LaidOut(g, flows, i, at[i], ignore, mode, cycle)
  }

  /** The cells placed of the last flow in `at`, and why the next one could not be. */
  ghost predicate StoppedBack(g: Grid, slots: nat, flows: seq<Flow>, at: seq<seq<Position>>, ignore: bool, mode: Mode,
                              cycle: nat, o: Outcome) {
    && 0 < |at| <= |flows|
    && var i := |at| - 1; var f, here := flows[i], at[i];
    && AllBackwards(g, flows, at[..i], ignore, mode, cycle)
    && |here| <= |f.cells| && Backwards(g, f, i, here, Offset(flows, i), |f.cells| - |here|)
    && if o == Missed then MissesBack(g, slots, f, here, Offset(flows, i), cycle)
       else RunsOut(g, slots, f, |f.cells| - |here|, Front(here, Offset(flows, i)))
  }

  lemma LaidOutStays(g: Grid, g': Grid, flows: seq<Flow>, i: nat, at: seq<Position>, ignore: bool, mode: Mode, cycle: nat)
    requires Extends(g, g') && |g| == |g'| && i < |flows| && LaidOut(g, flows, i, at, ignore, mode, cycle)
    ensures LaidOut(g', flows, i, at, ignore, mode, cycle)
  {
    var f := flows[i];
    hide Extends, Backwards, NoneInTimeBack, Offset, Misses;
    BackwardsExtends(g, g', f, i, at, Offset(flows, i), |f.cells| - |at|);
    if |at| < |f.cells| {
      NoneInTimeBackStays(g, g', f, at, Offset(flows, i), cycle);
    }
  }

  lemma AllBackwardsStay(g: Grid, g': Grid, flows: seq<Flow>, at: seq<seq<Position>>, ignore: bool, mode: Mode, cycle: nat)
    requires Extends(g, g') && |g| == |g'| && AllBackwards(g, flows, at, ignore, mode, cycle)
    ensures AllBackwards(g', flows, at, ignore, mode, cycle)
  {
    hide Extends, LaidOut;
    forall i | 0 <= i < |at|
      ensures LaidOut(g', flows, i, at[i], ignore, mode, cycle)
    {
      LaidOutStays(g, g', flows, i, at[i], ignore, mode, cycle);
    }
  }

  /** Counting on from where it begins, there is a timeslot, in time if that matters, for every cell of a
      flow and of the flows before it. */
  ghost predicate AllFit(flows: seq<Flow>, base: nat, ignore: bool, cycle: nat, slots: nat) {
    forall i :: 0 <= i < |flows| ==> Fits(flows[i], ignore, cycle, slots, Offset(flows, i) + Backlog(flows, base, i + 1))
  }

  lemma FitsHere(flows: seq<Flow>, base: nat, ignore: bool, cycle: nat, slots: nat, i: nat, before: nat)
    requires i < |flows| && before <= Backlog(flows, base, i)
    ensures AllFit(flows, base, ignore, cycle, slots) ==>
      Fits(flows[i], ignore, cycle, slots, Offset(flows, i) + before + |flows[i].cells|)
  {
    hide Backlog, Offset, Fits;
    BacklogNext(flows, base, i);
    if AllFit(flows, base, ignore, cycle, slots) {
      assert Fits(flows[i], ignore, cycle, slots, Offset(flows, i) + Backlog(flows, base, i + 1));
      FitsLess(flows[i], ignore, cycle, slots, Offset(flows, i) + before + |flows[i].cells|, Offset(flows, i) + Backlog(flows, base, i + 1));
    }
  }

  lemma FitsLess(f: Flow, ignore: bool, cycle: nat, slots: nat, a: nat, b: nat)
    requires Fits(f, ignore, cycle, slots, b) && a <= b
    ensures Fits(f, ignore, cycle, slots, a)
  {
  }

  /** What the two variables that keep track of the instances of a flow hold before the turn of flow i. */
  ghost predicate Instances(flows: seq<Flow>, i: nat, number: int, idx: nat) {
    i <= |flows| && if i == 0 then number == -1 else number == flows[i - 1].number && idx == Offset(flows, i - 1) + flows[i - 1].period
  }

  lemma OffsetIs(flows: seq<Flow>, i: nat, number: int, idx: nat)
    requires i < |flows| && Instances(flows, i, number, idx)
    ensures Offset(flows, i) == if number == -1 || number != flows[i].number then 0 else idx
    ensures Instances(flows, i + 1, flows[i].number, Offset(flows, i) + flows[i].period)
  {
  }

  lemma NothingListed(g: Grid, slots: nat, used: seq<seq<int>>)
    requires forall c, t {:trigger At(g, c, t)} :: At(g, c, t) == None
    requires |used| == slots && forall t :: 0 <= t < slots ==> used[t] == []
    ensures Tracks(g, slots, used)
  {
  }

  /** What holds between the turns of the flows. */
  ghost predicate Between(g: Grid, slots: nat, placed: nat, used: seq<seq<int>>, flows: seq<Flow>, at: seq<seq<Position>>,
                          base: nat, ignore: bool, mode: Mode, cycle: nat, last: nat) {
    && Tracks(g, slots, used) && |at| <= |flows| && placed <= Backlog(flows, base, |at|)
    && AllBackwards(g, flows, at, ignore, mode, cycle) && IsLatest(at, last) && (last < slots || last == 0)
    && (AllFit(flows, base, ignore, cycle, slots) ==> AllCells(flows, at))
  }

  /** The turn of flow i, which begins at its offset. */
  method PlaceNext(s: Schedule, used0: seq<seq<int>>, flows: seq<Flow>, i: nat, offset: nat, ignore: bool, mode: Mode, cycle: nat,
                   last0: nat, ghost done: seq<seq<Position>>, ghost base: nat)
    returns (o: Outcome, used: seq<seq<int>>, last: nat, ghost at: seq<seq<Position>>)
    requires s.Valid() && |done| == i < |flows| && offset == Offset(flows, i)
    requires Between(s.grid, s.slots, s.placed, used0, flows, done, base, ignore, mode, cycle, last0)
    modifies s
    ensures s.Valid() && |s.grid| == |old(s.grid)|
    ensures o == Placed ==> |at| == i + 1 && Between(s.grid, s.slots, s.placed, used, flows, at, base, ignore, mode, cycle, last)
    ensures o == Missed ==> !ignore && mode == Infeasible
    ensures o != Placed ==> StoppedBack(s.grid, s.slots, flows, at, ignore, mode, cycle, o)
    ensures o != Placed ==> !AllFit(flows, base, ignore, cycle, s.slots) && IsLatest(at, last) && (last < s.slots || last == 0)
    ensures o != Unfinished
  {
    hide Rect, PrefixOccupied, ConflictFree, Backwards, Extends, Tracks, MissesBack, RunsOut, IsLast, IsLatest, Fits, At, Misses,
      BlockedFrom, Offset, Put, NextOpen, Used, StoppedBack, AllBackwards, SoFar, Front, Blocked, Clear, Backlog, AllFit, AllCells;
    FitsHere(flows, base, ignore, cycle, s.slots, i, s.placed);
    BacklogNext(flows, base, i);
    ghost var was := s.grid;
    ghost var here;
    o, used, last, here := PlaceBackwards(s, used0, flows[i], i, offset, ignore, mode, cycle, last0);
    at := done + [here];
    AllBackwardsStay(was, s.grid, flows, done, ignore, mode, cycle);
    LastOfFlow(s.grid, s.slots, flows[i], i, here, offset, ignore, mode, cycle, last0, last, done);
    AllCellsNext(flows, done, here);
    if o != Placed {
      StopsHere(s.grid, s.slots, flows, i, done, here, ignore, mode, cycle, last0, last, o);
    } else {
      NewLaidOut(s.grid, s.slots, flows, i, done, here, ignore, mode, cycle, last0, last);
    }
  }

  /** R-LPF on an empty grid, from the point where the flows are sorted. Instances of one flow follow each
      other in the list and start a period apart. `at` lists where the cells went; if the method stops, it
      ends with those of the flow that stopped it. */
  method ScheduleBackwards(s: Schedule, flows: seq<Flow>, ignore: bool, mode: Mode, cycle: nat)
    returns (o: Outcome, last: nat, ghost at: seq<seq<Position>>)
    requires s.Valid() && forall c, t {:trigger At(s.grid, c, t)} :: At(s.grid, c, t) == None
    modifies s
    ensures s.Valid() && |s.grid| == |old(s.grid)|
    ensures o == Placed ==> |at| == |flows| && AllBackwards(s.grid, flows, at, ignore, mode, cycle)
    ensures o == Missed ==> !ignore && mode == Infeasible
    ensures o != Placed ==> StoppedBack(s.grid, s.slots, flows, at, ignore, mode, cycle, o)
    ensures AllFit(flows, old(s.placed), ignore, cycle, s.slots) ==> o == Placed && AllCells(flows, at)
    ensures IsLatest(at, last) && (last < s.slots || last == 0) && o != Unfinished
  {
    hide Schedule.Valid, Between, Instances, AllCells, IsLatest, AllFit, At, Offset, StoppedBack, AllBackwards;
    last, at := 0, [];
    var used: seq<seq<int>> := seq(s.slots, t => []);
    var currentNumber := -1;
    var currentIdx: nat := 0;
    AtFirst(s.grid, s.slots, s.placed, used, flows, ignore, mode, cycle);
    for i := 0 to |flows|
      invariant s.Valid() && |s.grid| == |old(s.grid)| && |at| == i
      invariant Between(s.grid, s.slots, s.placed, used, flows, at, old(s.placed), ignore, mode, cycle, last)
      invariant Instances(flows, i, currentNumber, currentIdx)
    {
      OffsetIs(flows, i, currentNumber, currentIdx);
      if currentNumber == -1 || currentNumber != flows[i].number {
        currentNumber := flows[i].number;
        currentIdx := 0;
      }
      o, used, last, at := PlaceNext(s, used, flows, i, currentIdx, ignore, mode, cycle, last, at, old(s.placed));
      if o != Placed {
        return;
      }
      currentIdx := currentIdx + flows[i].period;
    }
    o := Placed;
    AtLast(s.grid, s.slots, s.placed, used, flows, at, old(s.placed), ignore, mode, cycle, last);
  }

  lemma AtLast(g: Grid, slots: nat, placed: nat, used: seq<seq<int>>, flows: seq<Flow>, at: seq<seq<Position>>,
               base: nat, ignore: bool, mode: Mode, cycle: nat, last: nat)
    requires Between(g, slots, placed, used, flows, at, base, ignore, mode, cycle, last)
    ensures AllBackwards(g, flows, at, ignore, mode, cycle) && IsLatest(at, last) && (last < slots || last == 0)
    ensures AllFit(flows, base, ignore, cycle, slots) ==> AllCells(flows, at)
  {
  }

  lemma AtFirst(g: Grid, slots: nat, placed: nat, used: seq<seq<int>>, flows: seq<Flow>, ignore: bool, mode: Mode, cycle: nat)
    requires |used| == slots && forall t :: 0 <= t < slots ==> used[t] == []
    requires forall c, t {:trigger At(g, c, t)} :: At(g, c, t) == None
    ensures Between(g, slots, placed, used, flows, [], placed, ignore, mode, cycle, 0)
    ensures Instances(flows, 0, -1, 0)
  {
    NothingListed(g, slots, used);
    BacklogBase(flows, placed);
  }

  lemma LastOfFlow(g: Grid, slots: nat, f: Flow, i: nat, here: seq<Position>, notBefore: nat, ignore: bool, mode: Mode, cycle: nat,
                   before: nat, last: nat, done: seq<seq<Position>>)
    requires SoFar(g, slots, f, i, here, notBefore, ignore, mode, cycle, before, last)
    requires IsLatest(done, before) && (before < slots || before == 0)
    ensures |here| <= |f.cells| && IsLatest(done + [here], last) && (last < slots || last == 0)
  {
    hide IsLatest, Backwards, Misses;
    LatestAppend(done, before, last, here);
  }

  lemma StopsHere(g: Grid, slots: nat, flows: seq<Flow>, i: nat, done: seq<seq<Position>>, here: seq<Position>, ignore: bool, mode: Mode,
                  cycle: nat, before: nat, last: nat, o: Outcome)
    requires i < |flows| && |done| == i && AllBackwards(g, flows, done, ignore, mode, cycle)
    requires SoFar(g, slots, flows[i], i, here, Offset(flows, i), ignore, mode, cycle, before, last)
    requires o == Missed ==> MissesBack(g, slots, flows[i], here, Offset(flows, i), cycle)
    requires |here| <= |flows[i].cells|
    requires o != Missed ==> RunsOut(g, slots, flows[i], |flows[i].cells| - |here|, Front(here, Offset(flows, i)))
    ensures StoppedBack(g, slots, flows, done + [here], ignore, mode, cycle, o)
  {
    hide AllBackwards, Backwards, Offset, MissesBack, RunsOut, Misses;
    assert (done + [here])[..i] == done;
  }

  lemma NewLaidOut(g: Grid, slots: nat, flows: seq<Flow>, i: nat, done: seq<seq<Position>>, here: seq<Position>, ignore: bool,
                   mode: Mode, cycle: nat, before: nat, last: nat)
    requires i < |flows| && |done| == i && AllBackwards(g, flows, done, ignore, mode, cycle)
    requires SoFar(g, slots, flows[i], i, here, Offset(flows, i), ignore, mode, cycle, before, last)
    requires |here| < |flows[i].cells| ==> !ignore && mode == Enabled && MissesBack(g, slots, flows[i], here, Offset(flows, i), cycle)
    ensures AllBackwards(g, flows, done + [here], ignore, mode, cycle)
  {
    hide Backwards, Offset, Misses, MissesBack;
    if |here| < |flows[i].cells| {
      MissedBackNotInTime(g, slots, flows[i], here, Offset(flows, i), cycle);
    }
    assert LaidOut(g, flows, i, here, ignore, mode, cycle);
  }

  /** No cell of a flow lies before the flow begins. */
  lemma {:induction false} NotBefore(g: Grid, f: Flow, i: nat, at: seq<Position>, notBefore: nat, j: nat, k: nat)
    requires Backwards(g, f, i, at, notBefore, j) && k < |at|
    ensures notBefore <= at[k].1 && At(g, at[k].0, at[k].1) == Some(Cell(i, j + k, f.cells[j + k]))
    decreases |at| - k
  {
    hide BlockedFrom, At;
    assert LaidBack(g, f, i, at, notBefore, j, k);
    if k + 1 < |at| {
      assert at[k + 1..][0] == at[k + 1];
      NotBefore(g, f, i, at, notBefore, j, k + 1);
    }
  }

  // ---------------------------------------------------------------------------
  // Truncation and reversal

  /** The grid cut after timeslot `last` and read backwards. */
  ghost function Flip(g: Grid, last: nat): Grid
    requires forall c :: 0 <= c < |g| ==> last < |g[c]|
  {
    seq(|g|, c requires 0 <= c < |g| => seq(last + 1, t requires 0 <= t <= last => g[c][last - t]))
  }

  /** The first t and the last t entries have been exchanged. */
  ghost predicate HalfReversed(row: seq<Slot>, row0: seq<Slot>, last: nat, t: nat) {
    && last < |row0| && |row| == last + 1
    && forall u {:trigger row[u]} :: 0 <= u <= last ==>
         row[u] == if u < t || last - u < t then row0[last - u] else row0[u]
  }

  lemma SwapStep(row: seq<Slot>, row0: seq<Slot>, last: nat, t: nat)
    requires HalfReversed(row, row0, last, t) && 2 * t < last
    ensures HalfReversed(row[t := row[last - t]][last - t := row[t]], row0, last, t + 1)
  {
    var next := row[t := row[last - t]][last - t := row[t]];
    forall u {:trigger next[u]} | 0 <= u <= last
      ensures next[u] == if u < t + 1 || last - u < t + 1 then row0[last - u] else row0[u]
    {
      assert row[last - t] == row0[last - t] && row[t] == row0[t];
      assert next[u] == if u == t then row[last - t] else if u == last - t then row[t] else row[u];
      assert row[u] == if u < t || last - u < t then row0[last - u] else row0[u];
    }
  }

  /** One channel: cut, then entries swapped from both ends. */
  method ReverseRow(row0: seq<Slot>, last: nat) returns (row: seq<Slot>)
    requires last < |row0|
    ensures |row| == last + 1 && forall t :: 0 <= t <= last ==> row[t] == row0[last - t]
  {
    row := row0[..last + 1];
    var half := |row| / 2;
    for t := 0 to half
      invariant HalfReversed(row, row0, last, t)
    {
      SwapStep(row, row0, last, t);
      var tmp := row[t];
      row := row[t := row[last - t]];
      row := row[last - t := tmp];
    }
  }

  /** The final loop over the channels for R-LPF. */
  method ReverseGrid(g: Grid, slots: nat, last: nat) returns (h: Grid)
    requires Rect(g, slots) && last < slots
    ensures h == Flip(g, last)
  {
    h := [];
    for c := 0 to |g|
      invariant |h| == c
      invariant forall d :: 0 <= d < c ==> |h[d]| == last + 1 && forall t :: 0 <= t <= last ==> h[d][t] == g[d][last - t]
    {
      var row := ReverseRow(g[c], last);
      h := h + [row];
    }
    forall c | 0 <= c < |g|
      ensures h[c] == Flip(g, last)[c]
    {
    }
  }

  lemma FlipAt(g: Grid, slots: nat, last: nat)
    requires Rect(g, slots) && last < slots
    ensures forall c, t {:trigger At(Flip(g, last), c, t)} ::
      At(Flip(g, last), c, t) == if 0 <= t <= last then At(g, c, last - t) else None
  {
  }

  lemma FlipKeeps(g: Grid, slots: nat, last: nat)
    requires Rect(g, slots) && last < slots && PrefixOccupied(g) && ConflictFree(g)
    ensures PrefixOccupied(Flip(g, last)) && ConflictFree(Flip(g, last))
  {
    FlipAt(g, slots, last);
    hide Flip;
    var h := Flip(g, last);
    forall c, d, t {:trigger At(h, c, t), At(h, d, t)} | 0 <= c < d && At(h, d, t).Some?
      ensures At(h, c, t).Some?
    {
      assert At(g, d, last - t).Some? && At(h, c, t) == At(g, c, last - t);
    }
    forall c, d, t {:trigger At(h, c, t), At(h, d, t)} | c != d && At(h, c, t).Some? && At(h, d, t).Some?
      ensures Disjoint(At(h, c, t).value.participants, At(h, d, t).value.participants)
    {
      assert At(h, c, t) == At(g, c, last - t) && At(h, d, t) == At(g, d, last - t);
    }
  }

  /** R-LPF after truncation and reversal: the retained cells of a flow whose neighbouring cells share a
      node occur in path order, at strictly increasing timeslots. */
  lemma PathOrder(g: Grid, slots: nat, f: Flow, i: nat, at: seq<Position>, notBefore: nat, m: nat, last: nat, j: nat, k: nat)
    requires Rect(g, slots) && last < slots && Backwards(g, f, i, at, notBefore, m)
    requires F.Chained(f.cells) && j < k < |at| && at[j].1 <= last && at[k].1 <= last
    ensures At(Flip(g, last), at[j].0, last - at[j].1) == Some(Cell(i, m + j, f.cells[m + j]))
    ensures At(Flip(g, last), at[k].0, last - at[k].1) == Some(Cell(i, m + k, f.cells[m + k]))
    ensures last - at[j].1 < last - at[k].1
  {
    NotBefore(g, f, i, at, notBefore, m, j);
    NotBefore(g, f, i, at, notBefore, m, k);
    FlipAt(g, slots, last);
    Descending(g, f, i, at, notBefore, m, j, k);
  }

  /** The cells placed of a flow that are left in the reversed grid, and their order. */
  ghost predicate InPathOrder(h: Grid, f: Flow, i: nat, at: seq<Position>, last: nat) {
    && |at| <= |f.cells|
    && var m := |f.cells| - |at|;
    && (forall k :: 0 <= k < |at| && at[k].1 <= last ==> At(h, at[k].0, last - at[k].1) == Some(Cell(i, m + k, f.cells[m + k])))
    && (F.Chained(f.cells) ==> forall j, k :: 0 <= j < k < |at| && at[j].1 <= last && at[k].1 <= last ==>
          last - at[j].1 < last - at[k].1)
  }

  lemma FlowInPathOrder(g: Grid, slots: nat, flows: seq<Flow>, i: nat, at: seq<Position>, ignore: bool, mode: Mode, cycle: nat, last: nat)
    requires Rect(g, slots) && last < slots && i < |flows| && LaidOut(g, flows, i, at, ignore, mode, cycle)
    ensures InPathOrder(Flip(g, last), flows[i], i, at, last)
  {
    var f := flows[i];
    FlipAt(g, slots, last);
    hide Rect, Flip, Misses, NoneInTimeBack, Offset, Backwards, At;
    var m := |f.cells| - |at|;
    forall k | 0 <= k < |at| && at[k].1 <= last
      ensures At(Flip(g, last), at[k].0, last - at[k].1) == Some(Cell(i, m + k, f.cells[m + k]))
    {
      NotBefore(g, f, i, at, Offset(flows, i), m, k);
    }
    if F.Chained(f.cells) {
      forall j, k | 0 <= j < k < |at| && at[j].1 <= last && at[k].1 <= last
        ensures last - at[j].1 < last - at[k].1
      {
        PathOrder(g, slots, f, i, at, Offset(flows, i), m, last, j, k);
      }
    }
  }

  lemma LatestIsKept(g: Grid, slots: nat, flows: seq<Flow>, at: seq<seq<Position>>, ignore: bool, mode: Mode, cycle: nat, last: nat)
    requires AllBackwards(g, flows, at, ignore, mode, cycle) && IsLatest(at, last)
    requires cycle <= 1 || (!ignore && mode != Disabled)
    ensures AllKept(at, if cycle > 1 then cycle - 1 else last)
  {
    hide Backwards, NoneInTimeBack, Offset;
    forall i | 0 <= i < |at| ensures Upto(at[i], if cycle > 1 then cycle - 1 else last) {
      assert LaidOut(g, flows, i, at[i], ignore, mode, cycle);
    }
  }

  /** R-LPF as a whole: the placement, the choice of the last timeslot to keep, and the reversal. The result
      is None where a timeslot beyond the grid is to be kept, which is an IndexError. */
  method ScheduleReversed(s: Schedule, flows: seq<Flow>, ignore: bool, mode: Mode, cycle: nat)
    returns (o: Outcome, h: Option<Grid>, last: nat, ghost at: seq<seq<Position>>)
    requires s.Valid() && forall c, t {:trigger At(s.grid, c, t)} :: At(s.grid, c, t) == None
    modifies s
    ensures o == Placed ==> |at| == |flows| && AllBackwards(s.grid, flows, at, ignore, mode, cycle)
    ensures AllFit(flows, old(s.placed), ignore, cycle, s.slots) ==> o == Placed && AllCells(flows, at)
    ensures AllFit(flows, old(s.placed), ignore, cycle, s.slots) && 0 < s.slots && cycle <= s.slots ==> h.Some?
    ensures h.Some? <==> o == Placed && last < s.slots
    ensures h.Some? ==> |h.value| == |s.grid| && Rect(h.value, last + 1)
    ensures o == Placed ==> if cycle > 1 then last == cycle - 1 else IsLatest(at, last)
    ensures h.Some? ==> PrefixOccupied(h.value) && ConflictFree(h.value)
    ensures h.Some? ==> forall i :: 0 <= i < |flows| ==> InPathOrder(h.value, flows[i], i, at[i], last)
    ensures h.Some? && (cycle <= 1 || (!ignore && mode != Disabled)) ==> AllKept(at, last)
  {
    hide LaidOut, IsLatest, AllFit, AllCells, PrefixOccupied, ConflictFree, Used, At, Misses, InPathOrder, AllKept, StoppedBack;
    o, last, at := ScheduleBackwards(s, flows, ignore, mode, cycle);
    if o != Placed {
      return o, None, last, at;
    }
    ghost var latest := last;
    if cycle > 1 {
      last := cycle - 1;
    }
    if last >= s.slots {
      return o, None, last, at;
    }
    var reversed := ReverseGrid(s.grid, s.slots, last);
    FlipKeeps(s.grid, s.slots, last);
    forall i | 0 <= i < |flows| ensures InPathOrder(reversed, flows[i], i, at[i], last) {
      assert LaidOut(s.grid, flows, i, at[i], ignore, mode, cycle);
      FlowInPathOrder(s.grid, s.slots, flows, i, at[i], ignore, mode, cycle, last);
    }
    if cycle <= 1 || (!ignore && mode != Disabled) {
      LatestIsKept(s.grid, s.slots, flows, at, ignore, mode, cycle, latest);
    }
    h := Some(reversed);
  }

  lemma {:induction false} Descending(g: Grid, f: Flow, i: nat, at: seq<Position>, notBefore: nat, m: nat, j: nat, k: nat)
    requires Backwards(g, f, i, at, notBefore, m) && F.Chained(f.cells) && j < k < |at|
    ensures at[k].1 < at[j].1
    decreases k
  {
    assert F.Share(f.cells[m + k - 1], f.cells[m + k]);
    assert at[k - 1 + 1].1 < at[k - 1].1;
    if j < k - 1 {
      Descending(g, f, i, at, notBefore, m, j, k - 1);
    }
  }
}
