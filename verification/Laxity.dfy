/** The runs of C-LLF (Master/Python/scheduling.py): when its loop ends, and when the cells of a
    flow come to lie in order. */
module Laxity {
  import opened Wrappers
  import opened Sequences
  import opened Scheduler

  ghost predicate Sound(g: Grid, slots: nat) {
    Rect(g, slots) && PrefixOccupied(g) && ConflictFree(g)
  }

  // ---------------------------------------------------------------------------
  // One search

  lemma {:induction false} NextOpenFinds(g: Grid, slots: nat, p: seq<int>, lo: nat)
    requires Sound(g, slots)
    ensures NextOpen(g, slots, p, lo).None? <==> BlockedFrom(g, slots, p, lo)
    ensures NextOpen(g, slots, p, lo).Some? ==>
      var (c, t) := NextOpen(g, slots, p, lo).value;
      && At(g, c, t) == None && Clear(g, t, p) && !Blocked(g, t, p)
      && (forall d {:trigger At(g, d, t)} :: 0 <= d < c ==> At(g, d, t).Some?)
      && (forall u :: lo <= u < t ==> Blocked(g, u, p))
    decreases slots - lo
  {
    if lo < slots {
      EarlyExitIsSound(g, slots, lo, p);
      hide Rect, PrefixOccupied, ConflictFree, Blocked, Scan;
      NextOpenFinds(g, slots, p, lo + 1);
    }
  }

  /** Number of free entries of a row. */
  ghost function FreeIn(row: seq<Slot>): nat {
    if row == [] then 0 else FreeIn(row[..|row| - 1]) + if row[|row| - 1].None? then 1 else 0
  }

  ghost function Free(g: Grid): nat {
    if g == [] then 0 else Free(g[..|g| - 1]) + FreeIn(g[|g| - 1])
  }

  lemma {:induction false} FreeInPut(row: seq<Slot>, t: nat, cell: Cell)
    requires t < |row| && row[t].None?
    ensures FreeIn(row[t := Some(cell)]) == FreeIn(row) - 1
  {
    var row' := row[t := Some(cell)];
    var n := |row| - 1;
    if t < n {
      FreeInPut(row[..n], t, cell);
      assert row'[..n] == row[..n][t := Some(cell)];
    } else {
      assert row'[..n] == row[..n];
    }
  }

  lemma {:induction false} FreePut(g: Grid, c: nat, t: nat, cell: Cell)
    requires c < |g| && t < |g[c]| && g[c][t].None?
    ensures Free(Put(g, c, t, cell)) == Free(g) - 1
  {
    var g' := Put(g, c, t, cell);
    var n := |g| - 1;
    hide FreeIn;
    if c < n {
      FreePut(g[..n], c, t, cell);
      assert g'[..n] == Put(g[..n], c, t, cell);
    } else {
      FreeInPut(g[c], t, cell);
      assert g'[..n] == g[..n];
    }
  }

  lemma {:induction false} FreeAtMost(g: Grid, slots: nat)
    requires forall c :: 0 <= c < |g| ==> |g[c]| == slots
    ensures Free(g) <= |g| * slots
  {
    if g != [] {
      var n := |g| - 1;
      FreeAtMost(g[..n], slots);
      FreeInAtMost(g[n]);
      assert |g| * slots == n * slots + slots;
    }
  }

  lemma {:induction false} FreeInAtMost(row: seq<Slot>)
    ensures FreeIn(row) <= |row|
  {
    if row != [] {
      FreeInAtMost(row[..|row| - 1]);
    }
  }

  /** The search for one cell keeps the grid sound and takes one free entry. */
  lemma SearchStep(g: Grid, slots: nat, cell: Cell, lo: nat)
    requires Sound(g, slots) && NextOpen(g, slots, cell.participants, lo).Some?
    ensures var (c, t) := NextOpen(g, slots, cell.participants, lo).value;
      var g' := Put(g, c, t, cell);
      && Sound(g', slots) && |g'| == |g| && Extends(g, g')
      && Free(g') == Free(g) - 1 && Used(g', slots) <= Used(g, slots) + 1
      && !Blocked(g, t, cell.participants)
      && At(g, c, t) == None && At(g', c, t) == Some(cell)
      && forall d, u {:trigger At(g', d, u)} :: At(g', d, u) == if d == c && u == t then Some(cell) else At(g, d, u)
  {
    NextOpenFinds(g, slots, cell.participants, lo);
    var (c, t) := NextOpen(g, slots, cell.participants, lo).value;
    PutAt(g, c, t, cell, slots);
    PutKeeps(g, c, t, cell, slots);
    FreePut(g, c, t, cell);
    UsedPut(g, Put(g, c, t, cell), t, slots);
  }

  // ---------------------------------------------------------------------------
  // One turn

  /** A cell of a turn is skipped, or placed in the first timeslot that can take it. */
  lemma TurnStep(g: Grid, slots: nat, f: Flow, i: nat, j: nat, release: nat)
    returns (g': Grid, release': nat, at: Option<Position>)
    requires Sound(g, slots) && j < |f.cells|
    ensures Sound(g', slots) && |g'| == |g| && Extends(g, g')
    ensures TurnFrom(g, slots, f, i, j, release).grid == TurnFrom(g', slots, f, i, j + 1, release').grid
    ensures FilledFrom(g, release, if at.None? then slots else at.value.1)
    ensures at.None? ==> g' == g && release' == release && BlockedFrom(g, slots, f.cells[j], release)
    ensures at.None? ==> TurnFrom(g, slots, f, i, j, release).at == TurnFrom(g', slots, f, i, j + 1, release').at
    ensures at.Some? ==> var (c, t) := at.value;
      && c < |g| && release <= t < slots && release' == t + 1 && !Blocked(g, t, f.cells[j])
      && At(g, c, t) == None && At(g', c, t) == Some(Cell(i, j, f.cells[j])) && (c == 0 || At(g, 0, t).Some?)
      && (forall d, u {:trigger At(g', d, u)} :: At(g', d, u) == if d == c && u == t then At(g', c, t) else At(g, d, u))
      && Free(g') < Free(g) && Used(g', slots) <= Used(g, slots) + 1
      && TurnFrom(g, slots, f, i, j, release).at == TurnFrom(g', slots, f, i, j + 1, release').at[j := (c, t)]
  {
    hide PrefixOccupied, ConflictFree, Free, Used, NextOpen, Extends, Put, At, Blocked;
    NextOpenFinds(g, slots, f.cells[j], release);
    at := NextOpen(g, slots, f.cells[j], release);
    BlockedFills(g, if at.None? then slots else at.value.1, f.cells[j], release);
    if at.None? {
      ExtendsSelf(g);
      g', release' := g, release;
    } else {
      var (c, t) := at.value;
      SearchStep(g, slots, Cell(i, j, f.cells[j]), release);
      g', release' := Put(g, c, t, Cell(i, j, f.cells[j])), t + 1;
    }
  }

  /** A turn, or the rest of one from cell j on, adds cells to the grid and keeps it sound. */
  lemma {:induction false} TurnKeeps(g: Grid, slots: nat, f: Flow, i: nat, j: nat, release: nat)
    requires Sound(g, slots) && j <= |f.cells|
    ensures var r := TurnFrom(g, slots, f, i, j, release);
      && Sound(r.grid, slots) && Extends(g, r.grid)
      && if r.at == map[] then r.grid == g else Free(r.grid) < Free(g)
    decreases |f.cells| - j
  {
    hide PrefixOccupied, ConflictFree, Free, NextOpen, Extends, Put, At, Blocked;
    if j == |f.cells| {
      ExtendsSelf(g);
    } else {
      hide TurnFrom;
      var g', release', at := TurnStep(g, slots, f, i, j, release);
      TurnKeeps(g', slots, f, i, j + 1, release');
      assert at.Some? ==> j in TurnFrom(g, slots, f, i, j, release).at;
      ExtendsTrans(g, g', TurnFrom(g', slots, f, i, j + 1, release').grid);
    }
  }

  /** A turn puts a cell where the grid could take it, from the release on. */
  lemma {:induction false} TurnPlaces(g: Grid, slots: nat, f: Flow, i: nat, j: nat, release: nat, k: nat)
    requires Sound(g, slots) && j <= |f.cells| && k in TurnFrom(g, slots, f, i, j, release).at
    ensures j <= k < |f.cells|
    ensures var r := TurnFrom(g, slots, f, i, j, release);
      var (c, t) := r.at[k];
      && c < |g| && release <= t < slots && !Blocked(g, t, f.cells[k])
      && At(g, c, t) == None && At(r.grid, c, t) == Some(Cell(i, k, f.cells[k]))
    decreases |f.cells| - j
  {
    hide PrefixOccupied, ConflictFree, Free, Used, NextOpen, Put, At, Blocked;
    if j < |f.cells| {
      hide TurnFrom;
      var g', release', at := TurnStep(g, slots, f, i, j, release);
      if k == j && at.Some? {
        TurnKeeps(g', slots, f, i, j + 1, release');
        assert At(TurnFrom(g', slots, f, i, j + 1, release').grid, at.value.0, at.value.1) == At(g', at.value.0, at.value.1);
      } else {
        TurnPlaces(g', slots, f, i, j + 1, release', k);
        var (c, t) := TurnFrom(g', slots, f, i, j + 1, release').at[k];
        if Blocked(g, t, f.cells[k]) {
          BlockedStays(g, g', t, f.cells[k]);
        }
      }
    }
  }

  /** Later cells of a turn lie in later timeslots. */
  lemma {:induction false} TurnRises(g: Grid, slots: nat, f: Flow, i: nat, j: nat, release: nat, k: nat, l: nat)
    requires Sound(g, slots) && j <= |f.cells| && k < l
    requires k in TurnFrom(g, slots, f, i, j, release).at && l in TurnFrom(g, slots, f, i, j, release).at
    ensures TurnFrom(g, slots, f, i, j, release).at[k].1 < TurnFrom(g, slots, f, i, j, release).at[l].1
    decreases |f.cells| - j
  {
    hide Sound, Free, Used, NextOpen, Extends, Put, At, Blocked;
    if j < |f.cells| {
      hide TurnFrom;
      TurnPlaces(g, slots, f, i, j, release, k);
      var g', release', at := TurnStep(g, slots, f, i, j, release);
      if k == j {
        TurnPlaces(g', slots, f, i, j + 1, release', l);
      } else {
        TurnRises(g', slots, f, i, j + 1, release', k, l);
      }
    }
  }

  /** What a turn adds is a cell of the flow, where the turn has put it. */
  lemma {:induction false} TurnOrigin(g: Grid, slots: nat, f: Flow, i: nat, j: nat, release: nat, c: int, t: int)
    requires Sound(g, slots) && j <= |f.cells| && At(g, c, t) == None
    requires At(TurnFrom(g, slots, f, i, j, release).grid, c, t).Some?
    ensures var r := TurnFrom(g, slots, f, i, j, release);
      var cell := At(r.grid, c, t).value;
      cell.flow == i && cell.index in r.at && r.at[cell.index] == (c, t)
    decreases |f.cells| - j
  {
    hide PrefixOccupied, ConflictFree, Free, Used, NextOpen, Put, At, Blocked;
    if j < |f.cells| {
      hide TurnFrom;
      var g', release', at := TurnStep(g, slots, f, i, j, release);
      var r' := TurnFrom(g', slots, f, i, j + 1, release');
      TurnKeeps(g', slots, f, i, j + 1, release');
      if At(g', c, t).Some? {
        assert At(r'.grid, c, t) == At(g', c, t);
        if at.Some? && (c, t) == at.value {
        } else {
          assert false;
        }
      } else {
        TurnOrigin(g', slots, f, i, j + 1, release', c, t);
        var k := At(r'.grid, c, t).value.index;
        TurnPlaces(g', slots, f, i, j + 1, release', k);
      }
    }
  }

  /** A cell is skipped because nothing from the release, or from the place of an earlier cell of
      the turn on can take it. */
  lemma {:induction false} TurnSkips(g: Grid, slots: nat, f: Flow, i: nat, j: nat, release: nat, k: nat)
    returns (lo: nat)
    requires Sound(g, slots) && j <= k < |f.cells| && k !in TurnFrom(g, slots, f, i, j, release).at
    ensures var r := TurnFrom(g, slots, f, i, j, release);
      && BlockedFrom(r.grid, slots, f.cells[k], lo)
      && (lo == release || exists l :: l in r.at && l < k && lo == r.at[l].1 + 1)
    decreases |f.cells| - j
  {
    hide PrefixOccupied, ConflictFree, Free, Used, NextOpen, Extends, Put, At, Blocked, TurnFrom, BlockedFrom;
    var g', release', at := TurnStep(g, slots, f, i, j, release);
    var r, r' := TurnFrom(g, slots, f, i, j, release), TurnFrom(g', slots, f, i, j + 1, release');
    if k == j {
      lo := release;
      TurnKeeps(g, slots, f, i, j, release);
      BlockedFromStays(g, r.grid, slots, f.cells[k], lo);
    } else {
      lo := TurnSkips(g', slots, f, i, j + 1, release', k);
      if lo != release' {
        var l :| l in r'.at && l < k && lo == r'.at[l].1 + 1;
        TurnPlaces(g', slots, f, i, j + 1, release', l);
        assert l in r.at && r.at[l] == r'.at[l];
      } else if at.Some? {
        assert j in r.at && lo == r.at[j].1 + 1;
      }
    }
  }

  /** With enough timeslots behind the release no cell is skipped. */
  lemma {:induction false} TurnFits(g: Grid, slots: nat, f: Flow, i: nat, j: nat, release: nat, placed: nat)
    requires Sound(g, slots) && j <= |f.cells| && f.release <= release && FilledFrom(g, f.release, release)
    requires Used(g, slots) <= placed + j && f.release + placed + |f.cells| <= slots
    ensures var r := TurnFrom(g, slots, f, i, j, release);
      && (forall k :: j <= k < |f.cells| ==> k in r.at)
      && Used(r.grid, slots) <= placed + |f.cells|
    decreases |f.cells| - j
  {
    hide Free, Used, NextOpen, Put, At, Blocked;
    if j < |f.cells| {
      hide TurnFrom;
      var g', release', at := TurnStep(g, slots, f, i, j, release);
      hide Extends;
      if at.None? {
        NoneLeft(g, f.release, release, slots, placed + j);
        assert false;
      } else {
        FilledOneMore(g, g', f.release, at.value.0, at.value.1);
        TurnFits(g', slots, f, i, j + 1, release', placed);
      }
    }
  }

  // ---------------------------------------------------------------------------
  // A run: turns from a grid in which no flow is scheduled yet

  datatype Run = Run(slots: nat, flows: seq<Flow>, grid: Grid, turns: seq<nat>) {
    ghost predicate Given() {
      Sound(grid, slots) && Among(flows, turns)
    }

    ghost function Start(): Progress {
      Unscheduled(grid, flows)
    }

    /** The state after n turns. */
    ghost function State(n: nat): (s: Progress)
      requires Given() && n <= |turns|
      ensures Rect(s.grid, slots) && |s.grid| == |grid|
    {
      After(slots, flows, Start(), turns[..n])
    }

    ghost function TurnAt(n: nat): Turned
      requires Given() && n < |turns|
    {
      TurnOf(State(n), slots, flows, turns[n])
    }

    /** The loop has made these turns. */
    ghost predicate Possible() {
      Given() && Legal(slots, flows, Start(), turns)
    }

    /** Turn n has placed every cell of its flow. */
    ghost predicate Whole(n: nat)
      requires Given() && n < |turns|
    {
      Complete(flows[turns[n]], TurnAt(n).at)
    }

    /** No search has failed. */
    ghost predicate NoneSkipped()
      requires Given()
    {
      forall n :: 0 <= n < |turns| ==> Whole(n)
    }

    /** The loop has ended. */
    ghost predicate Ended()
      requires Given()
    {
      State(|turns|).pending == {}
    }
  }

  lemma StateNext(r: Run, n: nat)
    requires r.Given() && n < |r.turns|
    ensures r.State(n + 1) == Turn(r.State(n), r.slots, r.flows, r.turns[n])
    ensures r.State(n + 1).grid == r.TurnAt(n).grid
    ensures forall k :: k in r.TurnAt(n).at ==> (r.turns[n], k) !in r.State(n + 1).pending
    ensures forall x :: x in r.State(n).pending && x !in r.State(n + 1).pending ==>
      x.0 == r.turns[n] && x.1 in r.TurnAt(n).at
  {
    hide Sound, Rect, TurnOf;
    assert r.turns[..n + 1][..n] == r.turns[..n];
  }

  lemma StateFirst(r: Run)
    requires r.Given()
    ensures r.State(0) == r.Start()
  {
  }

  /** The grid stays sound, and what has been placed stays. */
  lemma {:induction false} StateKeeps(r: Run, m: nat, n: nat)
    requires r.Given() && m <= n <= |r.turns|
    ensures Sound(r.State(n).grid, r.slots) && Extends(r.State(m).grid, r.State(n).grid)
    ensures Free(r.State(n).grid) <= Free(r.State(m).grid)
    ensures r.State(n).pending <= r.State(m).pending
    decreases n
  {
    hide Extends, PrefixOccupied, ConflictFree, Rect, Free;
    if n == 0 {
      StateFirst(r);
      ExtendsSelf(r.grid);
    } else {
      StateKeeps(r, if m == n then n - 1 else m, n - 1);
      StateNext(r, n - 1);
      hide r.State;
      var f := r.flows[r.turns[n - 1]];
      TurnKeeps(r.State(n - 1).grid, r.slots, f, r.turns[n - 1], 0, f.release);
      if m == n {
        ExtendsSelf(r.State(n).grid);
      } else {
        ExtendsTrans(r.State(m).grid, r.State(n - 1).grid, r.State(n).grid);
      }
    }
  }

  // ---------------------------------------------------------------------------
  // When the loop ends

  /** No timeslot from the release on can take any cell of the flow. */
  ghost predicate Dead(g: Grid, slots: nat, f: Flow) {
    forall k :: 0 <= k < |f.cells| ==> BlockedFrom(g, slots, f.cells[k], f.release)
  }

  lemma DeadStays(g: Grid, g': Grid, slots: nat, f: Flow)
    requires Extends(g, g') && |g| == |g'| && Dead(g, slots, f)
    ensures Dead(g', slots, f)
  {
    hide Extends, BlockedFrom;
    forall k | 0 <= k < |f.cells| ensures BlockedFrom(g', slots, f.cells[k], f.release) {
      BlockedFromStays(g, g', slots, f.cells[k], f.release);
    }
  }

  /** A turn places nothing exactly if the flow is dead. */
  lemma IdleIff(g: Grid, slots: nat, f: Flow, i: nat)
    requires Sound(g, slots)
    ensures TurnFrom(g, slots, f, i, 0, f.release).at == map[] <==> Dead(g, slots, f)
  {
    hide PrefixOccupied, ConflictFree, At, TurnFrom, Extends, BlockedFrom, Blocked;
    var r := TurnFrom(g, slots, f, i, 0, f.release);
    TurnKeeps(g, slots, f, i, 0, f.release);
    if r.at == map[] {
      forall k | 0 <= k < |f.cells| ensures BlockedFrom(g, slots, f.cells[k], f.release) {
        var _ := TurnSkips(g, slots, f, i, 0, f.release, k);
      }
    } else {
      var k :| k in r.at;
      TurnPlaces(g, slots, f, i, 0, f.release, k);
      OpenIsNotBlocked(g, slots, f.cells[k], f.release, r.at[k].1);
    }
  }

  lemma OpenIsNotBlocked(g: Grid, slots: nat, p: seq<int>, lo: nat, t: nat)
    requires lo <= t < slots && !Blocked(g, t, p)
    ensures !BlockedFrom(g, slots, p, lo)
  {
  }

  /** A turn of a dead flow changes nothing, any other takes free entries. */
  lemma DeadTurn(r: Run, n: nat)
    requires r.Given() && n < |r.turns|
    ensures Dead(r.State(n).grid, r.slots, r.flows[r.turns[n]]) ==> r.State(n + 1) == r.State(n)
    ensures !Dead(r.State(n).grid, r.slots, r.flows[r.turns[n]]) ==> Free(r.State(n + 1).grid) < Free(r.State(n).grid)
  {
    StateKeeps(r, n, n);
    StateNext(r, n);
    hide r.State, Sound, Dead, TurnFrom, Free;
    var f := r.flows[r.turns[n]];
    IdleIff(r.State(n).grid, r.slots, f, r.turns[n]);
    TurnKeeps(r.State(n).grid, r.slots, f, r.turns[n], 0, f.release);
  }

  /** How many of the first n turns have placed a cell. */
  ghost function PlacingTurns(r: Run, n: nat): nat
    requires r.Given() && n <= |r.turns|
  {
    if n == 0 then 0
    else PlacingTurns(r, n - 1) + if r.TurnAt(n - 1).at == map[] then 0 else 1
  }

  /** At most as many turns place a cell as the grid has entries. */
  lemma FewPlacingTurns(r: Run)
    requires r.Given()
    ensures PlacingTurns(r, |r.turns|) <= |r.grid| * r.slots
  {
    PlacingTakesRoom(r, |r.turns|);
    FreeAtMost(r.grid, r.slots);
  }

  lemma {:induction false} PlacingTakesRoom(r: Run, n: nat)
    requires r.Given() && n <= |r.turns|
    ensures PlacingTurns(r, n) + Free(r.State(n).grid) <= Free(r.grid)
  {
    if n == 0 {
      StateFirst(r);
    } else {
      hide r.State, r.TurnAt, PrefixOccupied, ConflictFree, Rect, Free;
      PlacingTakesRoom(r, n - 1);
      TurnTakesRoom(r, n - 1);
    }
  }

  lemma TurnTakesRoom(r: Run, n: nat)
    requires r.Given() && n < |r.turns|
    ensures (if r.TurnAt(n).at == map[] then 0 else 1) + Free(r.State(n + 1).grid) <= Free(r.State(n).grid)
  {
    hide PrefixOccupied, ConflictFree, Rect, TurnFrom, Free, After, Unscheduled, Extends, r.State;
    StateKeeps(r, n, n);
    StateNext(r, n);
    var f := r.flows[r.turns[n]];
    TurnKeeps(r.State(n).grid, r.slots, f, r.turns[n], 0, f.release);
  }

  /** While only dead flows have turns, nothing changes. */
  lemma {:induction false} DeadRun(r: Run, m: nat, n: nat)
    requires r.Given() && m <= n <= |r.turns|
    requires forall k :: m <= k < n ==> Dead(r.State(k).grid, r.slots, r.flows[r.turns[k]])
    ensures r.State(n) == r.State(m)
    decreases n
  {
    hide r.State, Dead, Sound;
    if m < n {
      DeadRun(r, m, n - 1);
      DeadTurn(r, n - 1);
    }
  }

  /** No flow with a cell pending can have one placed. */
  ghost predicate Stuck(r: Run, n: nat)
    requires r.Given() && n <= |r.turns|
  {
    forall x :: x in r.State(n).pending && x.0 < |r.flows| ==> Dead(r.State(n).grid, r.slots, r.flows[x.0])
  }

  /** Then no later turn changes anything: the loop does not end. */
  lemma {:induction false} StuckForEver(r: Run, m: nat, n: nat)
    requires r.Possible() && m <= n <= |r.turns| && Stuck(r, m)
    ensures r.State(n) == r.State(m)
    decreases n
  {
    hide Dead, PrefixOccupied, ConflictFree, Rect, r.State, After, Legal, Unscheduled, Extends;
    if m < n {
      StuckForEver(r, m, n - 1);
      TurnIsPending(r, n - 1);
      DeadTurn(r, n - 1);
    }
  }

  lemma TurnIsPending(r: Run, n: nat)
    requires r.Possible() && n < |r.turns|
    ensures exists x :: x in r.State(n).pending && x.0 == r.turns[n]
  {
    hide PrefixOccupied, ConflictFree, After;
    assert HasPending(r.State(n), r.turns[n]);
  }

  /** The first n choices. */
  ghost function FirstTurns(choice: nat -> nat, n: nat): (turns: seq<nat>)
    ensures |turns| == n
  {
    seq(n, k requires 0 <= k < n => choice(k))
  }

  ghost function Following(slots: nat, flows: seq<Flow>, g: Grid, choice: nat -> nat, n: nat): Run {
    Run(slots, flows, g, FirstTurns(choice, n))
  }

  /** The choice takes a flow with a cell pending, as long as there is one. */
  ghost predicate Picks(slots: nat, flows: seq<Flow>, g: Grid, choice: nat -> nat) {
    && Sound(g, slots) && (forall n :: choice(n) < |flows|)
    && forall n :: Pick(slots, flows, g, choice, n)
  }

  ghost predicate Pick(slots: nat, flows: seq<Flow>, g: Grid, choice: nat -> nat, n: nat)
    requires Sound(g, slots) && forall n :: choice(n) < |flows|
  {
    var s := Following(slots, flows, g, choice, n).State(n);
    s.pending != {} ==> HasPending(s, choice(n))
  }

  /** The loop ends if flows have their turns by this choice. */
  ghost predicate Ends(slots: nat, flows: seq<Flow>, g: Grid, choice: nat -> nat)
    requires Picks(slots, flows, g, choice)
  {
    exists n: nat :: Following(slots, flows, g, choice, n).Ended()
  }

  /** From turn n on only dead flows have turns, and cells are pending. */
  ghost predicate Hangs(slots: nat, flows: seq<Flow>, g: Grid, choice: nat -> nat, n: nat)
    requires Picks(slots, flows, g, choice)
  {
    var s := Following(slots, flows, g, choice, n).State(n);
    s.pending != {} && forall k :: n <= k ==> Dead(s.grid, slots, flows[choice(k)])
  }

  lemma SameState(slots: nat, flows: seq<Flow>, g: Grid, choice: nat -> nat, m: nat, n: nat)
    requires Picks(slots, flows, g, choice) && m <= n
    ensures Following(slots, flows, g, choice, n).State(m) == Following(slots, flows, g, choice, m).State(m)
  {
    hide After, Sound, Pick;
    assert FirstTurns(choice, n)[..m] == FirstTurns(choice, m)[..m];
  }

  /** Turn n is one of a dead flow. */
  ghost predicate Idles(slots: nat, flows: seq<Flow>, g: Grid, choice: nat -> nat, n: nat)
    requires Picks(slots, flows, g, choice)
  {
    Dead(Following(slots, flows, g, choice, n).State(n).grid, slots, flows[choice(n)])
  }

  lemma IdlesAt(slots: nat, flows: seq<Flow>, g: Grid, choice: nat -> nat, m: nat, n: nat)
    requires Picks(slots, flows, g, choice) && m < n
    ensures var r := Following(slots, flows, g, choice, n);
      && r.turns[m] == choice(m)
      && (Idles(slots, flows, g, choice, m) <==> Dead(r.State(m).grid, slots, flows[choice(m)]))
  {
    hide Dead, Sound;
    SameState(slots, flows, g, choice, m, n);
  }

  lemma IdleRun(slots: nat, flows: seq<Flow>, g: Grid, choice: nat -> nat, m: nat, n: nat)
    requires Picks(slots, flows, g, choice) && m <= n && forall k :: m <= k < n ==> Idles(slots, flows, g, choice, k)
    ensures Following(slots, flows, g, choice, n).State(n) == Following(slots, flows, g, choice, m).State(m)
  {
    hide Dead, Sound, Idles;
    var r := Following(slots, flows, g, choice, n);
    hide r.State;
    forall k | m <= k < n ensures Dead(r.State(k).grid, r.slots, r.flows[r.turns[k]]) {
      IdlesAt(slots, flows, g, choice, k, n);
    }
    DeadRun(r, m, n);
    SameState(slots, flows, g, choice, m, n);
  }

  /** The turns that place something come to an end. */
  lemma {:induction false} LastPlacing(slots: nat, flows: seq<Flow>, g: Grid, choice: nat -> nat, n: nat)
    returns (last: nat)
    requires Picks(slots, flows, g, choice)
    ensures n <= last && forall k :: last <= k ==> Idles(slots, flows, g, choice, k)
    decreases Free(Following(slots, flows, g, choice, n).State(n).grid)
  {
    hide Dead, Free, Sound, Idles;
    if k: nat :| n <= k && !Idles(slots, flows, g, choice, k) {
      PlacingShrinks(slots, flows, g, choice, n, k);
      last := LastPlacing(slots, flows, g, choice, k + 1);
    } else {
      last := n;
    }
  }

  lemma PlacingShrinks(slots: nat, flows: seq<Flow>, g: Grid, choice: nat -> nat, n: nat, k: nat)
    requires Picks(slots, flows, g, choice) && n <= k && !Idles(slots, flows, g, choice, k)
    ensures Free(Following(slots, flows, g, choice, k + 1).State(k + 1).grid) <
            Free(Following(slots, flows, g, choice, n).State(n).grid)
  {
    hide Dead, Free, Sound, Idles;
    var r := Following(slots, flows, g, choice, k + 1);
    hide r.State;
    SameState(slots, flows, g, choice, n, k + 1);
    IdlesAt(slots, flows, g, choice, k, k + 1);
    StateKeeps(r, n, k);
    DeadTurn(r, k);
  }

  /** Whatever the laxities choose: the loop does not end exactly if from some turn on only dead
      flows have turns while cells are pending. */
  lemma EndsIff(slots: nat, flows: seq<Flow>, g: Grid, choice: nat -> nat)
    requires Picks(slots, flows, g, choice)
    ensures !Ends(slots, flows, g, choice) <==> exists n: nat :: Hangs(slots, flows, g, choice, n)
  {
    hide Dead, Sound, Idles;
    if !Ends(slots, flows, g, choice) {
      var last := LastPlacing(slots, flows, g, choice, 0);
      var r := Following(slots, flows, g, choice, last);
      assert !r.Ended();
      forall k | last <= k ensures Dead(r.State(last).grid, slots, flows[choice(k)]) {
        IdleRun(slots, flows, g, choice, last, k);
        assert Idles(slots, flows, g, choice, k);
        IdlesAt(slots, flows, g, choice, k, k + 1);
        SameState(slots, flows, g, choice, k, k + 1);
      }
      assert Hangs(slots, flows, g, choice, last);
    } else if n: nat :| Hangs(slots, flows, g, choice, n) {
      var m: nat :| Following(slots, flows, g, choice, m).Ended();
      HangingGoesOn(slots, flows, g, choice, n, m);
    }
  }

  lemma {:induction false} HangingIdles(slots: nat, flows: seq<Flow>, g: Grid, choice: nat -> nat, n: nat, m: nat)
    requires Picks(slots, flows, g, choice) && Hangs(slots, flows, g, choice, n) && n <= m
    ensures forall k :: n <= k < m ==> Idles(slots, flows, g, choice, k)
    decreases m
  {
    hide Dead, Sound;
    if n < m {
      HangingIdles(slots, flows, g, choice, n, m - 1);
      IdleRun(slots, flows, g, choice, n, m - 1);
    }
  }

  lemma HangingGoesOn(slots: nat, flows: seq<Flow>, g: Grid, choice: nat -> nat, n: nat, m: nat)
    requires Picks(slots, flows, g, choice) && Hangs(slots, flows, g, choice, n)
    ensures !Following(slots, flows, g, choice, m).Ended()
  {
    if m <= n {
      SameState(slots, flows, g, choice, m, n);
      StateKeeps(Following(slots, flows, g, choice, n), m, n);
    } else {
      HangingIdles(slots, flows, g, choice, n, m);
      IdleRun(slots, flows, g, choice, n, m);
    }
  }

  // ---------------------------------------------------------------------------
  // When the cells of every flow lie in order

  ghost predicate Empty(g: Grid) {
    forall c, t {:trigger At(g, c, t)} :: At(g, c, t) == None
  }

  /** Of two cells of a flow the later one lies in a later timeslot, however often they occur. */
  ghost predicate PathOrdered(g: Grid) {
    forall c, t, d, u {:trigger At(g, c, t), At(g, d, u)} :: Before(At(g, c, t), At(g, d, u)) ==> t < u
  }

  /** Both slots hold cells of one flow, the first an earlier one. */
  ghost predicate Before(a: Slot, b: Slot) {
    a.Some? && b.Some? && a.value.flow == b.value.flow && a.value.index < b.value.index
  }

  /** Turn n has put cell k where it says, and that is where the cell stays. */
  lemma TurnPuts(r: Run, n: nat, k: nat)
    requires r.Given() && n < |r.turns| && k in r.TurnAt(n).at
    ensures k < |r.flows[r.turns[n]].cells|
    ensures var (c, t) := r.TurnAt(n).at[k];
      && c < |r.grid| && r.flows[r.turns[n]].release <= t < r.slots
      && !Blocked(r.State(n).grid, t, r.flows[r.turns[n]].cells[k])
      && At(r.State(|r.turns|).grid, c, t) == Some(Cell(r.turns[n], k, r.flows[r.turns[n]].cells[k]))
  {
    StateKeeps(r, n, n);
    StateNext(r, n);
    StateKeeps(r, n + 1, |r.turns|);
    hide r.State, PrefixOccupied, ConflictFree, Blocked, At, TurnFrom;
    var f := r.flows[r.turns[n]];
    TurnPlaces(r.State(n).grid, r.slots, f, r.turns[n], 0, f.release, k);
    var (c, t) := r.TurnAt(n).at[k];
    assert At(r.State(|r.turns|).grid, c, t) == At(r.State(n + 1).grid, c, t);
  }

  lemma PutsRise(r: Run, n: nat, k: nat, l: nat)
    requires r.Given() && n < |r.turns| && k < l && k in r.TurnAt(n).at && l in r.TurnAt(n).at
    ensures r.TurnAt(n).at[k].1 < r.TurnAt(n).at[l].1
  {
    StateKeeps(r, n, n);
    hide r.State, Sound, TurnFrom;
    var f := r.flows[r.turns[n]];
    TurnRises(r.State(n).grid, r.slots, f, r.turns[n], 0, f.release, k, l);
  }

  /** Every cell in the grid has been put there by a turn. */
  lemma {:induction false} Origin(r: Run, n: nat, c: int, t: int) returns (m: nat)
    requires r.Given() && n <= |r.turns| && Empty(r.grid) && At(r.State(n).grid, c, t).Some?
    ensures m < n && At(r.State(n).grid, c, t).value.flow == r.turns[m]
    ensures At(r.State(n).grid, c, t).value.index in r.TurnAt(m).at
    ensures r.TurnAt(m).at[At(r.State(n).grid, c, t).value.index] == (c, t)
  {
    if n == 0 {
      StateFirst(r);
      assert false;
    } else {
      StateKeeps(r, n - 1, n - 1);
      StateKeeps(r, n - 1, n);
      StateNext(r, n - 1);
      hide r.State, PrefixOccupied, ConflictFree, Rect, Legal, After, Unscheduled, At, TurnFrom;
      if At(r.State(n - 1).grid, c, t).Some? {
        assert At(r.State(n).grid, c, t) == At(r.State(n - 1).grid, c, t);
        m := Origin(r, n - 1, c, t);
      } else {
        m := n - 1;
        var f := r.flows[r.turns[m]];
        TurnOrigin(r.State(m).grid, r.slots, f, r.turns[m], 0, f.release, c, t);
      }
    }
  }

  /** A cell that is pending no more has been placed by a turn. */
  lemma {:induction false} PlacedBetween(r: Run, m: nat, n: nat, x: (nat, nat)) returns (k: nat)
    requires r.Given() && m <= n <= |r.turns| && x in r.State(m).pending && x !in r.State(n).pending
    ensures m <= k < n && r.turns[k] == x.0 && x.1 in r.TurnAt(k).at
    decreases n
  {
    hide PrefixOccupied, ConflictFree, TurnFrom;
    StateNext(r, n - 1);
    hide r.State;
    if x in r.State(n - 1).pending {
      k := n - 1;
    } else {
      k := PlacedBetween(r, m, n - 1, x);
    }
  }

  lemma CleanBefore(r: Run, n: nat)
    requires r.Given() && n <= |r.turns| && forall m :: 0 <= m < n ==> r.Whole(m)
    ensures Clean(r.slots, r.flows, r.Start(), r.turns[..n])
  {
    hide PrefixOccupied, ConflictFree, TurnFrom, Complete;
    forall m | 0 <= m < n ensures TurnComplete(r.slots, r.flows, r.Start(), r.turns[..n], m) {
      assert r.turns[..n][..m] == r.turns[..m];
      assert r.Whole(m);
    }
  }

  /** Until a search fails, no flow has its turn twice. */
  lemma TurnsDiffer(r: Run, m: nat, n: nat)
    requires r.Possible() && m < n < |r.turns| && forall k :: 0 <= k < n ==> r.Whole(k)
    ensures r.turns[m] != r.turns[n]
  {
    TurnIsPending(r, n);
    var x :| x in r.State(n).pending && x.0 == r.turns[n];
    CleanBefore(r, n);
    hide PrefixOccupied, ConflictFree, TurnFrom, After, Clean, Legal;
    FreshTurn(r.slots, r.flows, r.Start(), r.turns[..n], r.turns[n], x);
    assert r.turns[..n][m] == r.turns[m];
  }

  lemma CleanIsOrdered(r: Run)
    requires r.Possible() && Empty(r.grid) && r.NoneSkipped()
    ensures PathOrdered(r.State(|r.turns|).grid)
  {
    var g := r.State(|r.turns|).grid;
    hide r.State, PrefixOccupied, ConflictFree, At, TurnFrom, Legal, Empty;
    forall c, t, d, u {:trigger At(g, c, t), At(g, d, u)} | Before(At(g, c, t), At(g, d, u))
      ensures t < u
    {
      var m := Origin(r, |r.turns|, c, t);
      var n := Origin(r, |r.turns|, d, u);
      if m < n {
        TurnsDiffer(r, m, n);
      } else if n < m {
        TurnsDiffer(r, n, m);
      }
      PutsRise(r, m, At(g, c, t).value.index, At(g, d, u).value.index);
    }
  }

  /** The first turn that skips a cell. */
  lemma {:induction false} FirstSkipping(r: Run, n: nat) returns (m: nat)
    requires r.Given() && n <= |r.turns| && exists k :: 0 <= k < n && !r.Whole(k)
    ensures m < n && !r.Whole(m) && forall k :: 0 <= k < m ==> r.Whole(k)
  {
    hide PrefixOccupied, ConflictFree, r.Whole;
    if k :| 0 <= k < n - 1 && !r.Whole(k) {
      m := FirstSkipping(r, n - 1);
    } else {
      m := n - 1;
    }
  }

  /** Before its first turn all cells of a flow are pending. */
  lemma {:induction false} UntouchedPending(r: Run, n: nat, x: (nat, nat))
    requires r.Given() && n <= |r.turns| && x in r.Start().pending && forall m :: 0 <= m < n ==> r.turns[m] != x.0
    ensures x in r.State(n).pending
  {
    hide PrefixOccupied, ConflictFree, TurnFrom;
    if n == 0 {
      StateFirst(r);
    } else {
      UntouchedPending(r, n - 1, x);
      StateNext(r, n - 1);
    }
  }

  /** A cell that the first incomplete turn of its flow skips has to be placed by a later one. */
  lemma PlacedLater(r: Run, n: nat, k: nat) returns (m: nat)
    requires r.Possible() && r.Ended() && n < |r.turns| && forall m :: 0 <= m < n ==> r.Whole(m)
    requires k < |r.flows[r.turns[n]].cells| && k !in r.TurnAt(n).at
    ensures n < m < |r.turns| && r.turns[m] == r.turns[n] && k in r.TurnAt(m).at
  {
    hide PrefixOccupied, ConflictFree, Rect, TurnFrom, Legal, After, Extends, r.Whole;
    var x := (r.turns[n], k);
    assert x in r.Start().pending;
    forall m | 0 <= m < n ensures r.turns[m] != x.0 {
      TurnsDiffer(r, m, n);
    }
    hide Unscheduled;
    UntouchedPending(r, n, x);
    StateNext(r, n);
    hide r.State;
    m := PlacedBetween(r, n + 1, |r.turns|, x);
  }

  /** There it comes to lie before one of its predecessors. */
  lemma LaterIsDisordered(r: Run, n: nat, m: nat, k: nat)
    requires r.Given() && n < m < |r.turns| && r.turns[m] == r.turns[n]
    requires k < |r.flows[r.turns[n]].cells| && k !in r.TurnAt(n).at && k in r.TurnAt(m).at
    ensures exists l :: l in r.TurnAt(n).at && l < k && r.TurnAt(m).at[k].1 <= r.TurnAt(n).at[l].1
  {
    hide PrefixOccupied, ConflictFree, Rect, TurnFrom, After, Extends, Unscheduled, At, Blocked, r.State;
    var f := r.flows[r.turns[n]];
    StateNext(r, n);
    StateKeeps(r, n, n);
    StateKeeps(r, n + 1, m);
    var lo := TurnSkips(r.State(n).grid, r.slots, f, r.turns[n], 0, f.release, k);
    BlockedFromStays(r.State(n + 1).grid, r.State(m).grid, r.slots, f.cells[k], lo);
    TurnPuts(r, m, k);
    assert r.TurnAt(m).at[k].1 < lo;
  }

  lemma SkippedIsDisordered(r: Run, n: nat)
    requires r.Possible() && r.Ended() && n < |r.turns| && !r.Whole(n) && forall m :: 0 <= m < n ==> r.Whole(m)
    ensures !PathOrdered(r.State(|r.turns|).grid)
  {
    var k :| 0 <= k < |r.flows[r.turns[n]].cells| && k !in r.TurnAt(n).at;
    var m := PlacedLater(r, n, k);
    hide PrefixOccupied, ConflictFree, Rect, TurnFrom, Legal, After, Extends, Unscheduled, At, Blocked, r.State;
    LaterIsDisordered(r, n, m, k);
    var l :| l in r.TurnAt(n).at && l < k && r.TurnAt(m).at[k].1 <= r.TurnAt(n).at[l].1;
    TurnPuts(r, n, l);
    TurnPuts(r, m, k);
    var g := r.State(|r.turns|).grid;
    var (c, t) := r.TurnAt(n).at[l];
    var (d, u) := r.TurnAt(m).at[k];
    assert Before(At(g, c, t), At(g, d, u)) && u <= t;
  }

  /** When the loop has ended, the cells of every flow lie in order exactly if no search failed. */
  lemma OrderIff(r: Run)
    requires r.Possible() && r.Ended() && Empty(r.grid)
    ensures PathOrdered(r.State(|r.turns|).grid) <==> r.NoneSkipped()
  {
    if r.NoneSkipped() {
      CleanIsOrdered(r);
    } else {
      var n := FirstSkipping(r, |r.turns|);
      SkippedIsDisordered(r, n);
    }
  }

  // ---------------------------------------------------------------------------
  // How many timeslots are enough

  /** The first n turns are those of different flows, none skips a cell, and the grid is no fuller
      than their cells and the earlier ones make it. */
  ghost predicate OnceEach(r: Run, base: nat, n: nat)
    requires r.Given() && n <= |r.turns|
  {
    && Distinct(r.turns[..n]) && (forall m :: 0 <= m < n ==> r.Whole(m))
    && Used(r.State(n).grid, r.slots) <= Backlog(Reordered(r.flows, r.turns[..n]), base, n)
  }

  lemma {:induction false} RoomForTurns(r: Run, base: nat, n: nat)
    requires r.Possible() && n <= |r.turns| && Used(r.grid, r.slots) <= base
    requires LatestRelease(r.flows) + Backlog(r.flows, base, |r.flows|) <= r.slots
    ensures OnceEach(r, base, n)
  {
    if n == 0 {
      StateFirst(r);
      BacklogBase(Reordered(r.flows, []), base);
    } else {
      hide OnceEach, Used, Backlog, LatestRelease, Sound, Legal;
      RoomForTurns(r, base, n - 1);
      OneMoreTurn(r, base, n - 1);
    }
  }

  /** With as many timeslots as there are cells behind the latest release no search fails, and
      every flow has one turn at most. */
  lemma RoomIsEnough(r: Run, base: nat)
    requires r.Possible() && Used(r.grid, r.slots) <= base
    requires LatestRelease(r.flows) + Backlog(r.flows, base, |r.flows|) <= r.slots
    ensures r.NoneSkipped() && Distinct(r.turns) && |r.turns| <= |r.flows|
  {
    hide Sound, r.State, Used, Backlog, LatestRelease, r.Whole;
    RoomForTurns(r, base, |r.turns|);
    assert r.turns[..|r.turns|] == r.turns;
    OneTurnEach(r.flows, r.turns, base);
  }

  lemma OneMoreTurn(r: Run, base: nat, n: nat)
    requires r.Possible() && n < |r.turns|
    requires LatestRelease(r.flows) + Backlog(r.flows, base, |r.flows|) <= r.slots
    requires OnceEach(r, base, n)
    ensures OnceEach(r, base, n + 1)
  {
    hide PrefixOccupied, ConflictFree, Rect, TurnFrom, Legal, After, Extends, Unscheduled, At, Backlog, Used, Complete, LatestRelease;
    var order, i := r.turns[..n], r.turns[n];
    var f := r.flows[i];
    forall m | 0 <= m < n ensures order[m] != i {
      TurnsDiffer(r, m, n);
    }
    assert r.turns[..n + 1] == order + [i];
    NextBacklog(r.flows, order, i, base);
    OneTurnEach(r.flows, order + [i], base);
    LatestIsLatest(r.flows, i);
    StateNext(r, n);
    StateKeeps(r, n, n);
    hide r.State;
    var placed := Backlog(Reordered(r.flows, order), base, n);
    FitsFromRelease(r.State(n).grid, r.slots, f, i, placed);
    BacklogPrefix(Reordered(r.flows, order), Reordered(r.flows, order + [i]), base, n);
    BacklogNext(Reordered(r.flows, order + [i]), base, n);
  }

  lemma FitsFromRelease(g: Grid, slots: nat, f: Flow, i: nat, placed: nat)
    requires Sound(g, slots) && Used(g, slots) <= placed && f.release + placed + |f.cells| <= slots
    ensures var r := TurnFrom(g, slots, f, i, 0, f.release);
      Complete(f, r.at) && Used(r.grid, slots) <= placed + |f.cells|
  {
    TurnFits(g, slots, f, i, 0, f.release, placed);
  }

  /** So the loop ends. */
  lemma EndsWithRoom(slots: nat, flows: seq<Flow>, g: Grid, choice: nat -> nat)
    requires Picks(slots, flows, g, choice) && Empty(g)
    requires LatestRelease(flows) + Backlog(flows, 0, |flows|) <= slots
    ensures Ends(slots, flows, g, choice)
  {
    hide Sound, At, LatestRelease, Backlog, Used;
    var n := |flows| + 1;
    var r := Following(slots, flows, g, choice, n);
    if forall m: nat :: m < n ==> r.State(m).pending != {} {
      forall m | 0 <= m < n ensures HasPending(r.State(m), r.turns[m]) {
        SameState(slots, flows, g, choice, m, n);
        assert Pick(slots, flows, g, choice, m);
      }
      NothingUsed(g, slots);
      RoomIsEnough(r, 0);
      assert false;
    } else {
      var m: nat :| m < n && r.State(m).pending == {};
      SameState(slots, flows, g, choice, m, n);
      assert Following(slots, flows, g, choice, m).Ended();
    }
  }

  /** Every two cells of the flows have a node in common, as when all flows lead through one. */
  ghost predicate AllMeet(flows: seq<Flow>) {
    forall i, k, j, l {:trigger flows[i].cells[k], flows[j].cells[l]} ::
      0 <= i < |flows| && 0 <= k < |flows[i].cells| && 0 <= j < |flows| && 0 <= l < |flows[j].cells| ==>
      !Disjoint(flows[i].cells[k], flows[j].cells[l])
  }

  /** Cell x lies in timeslot t. */
  ghost predicate LiesAt(g: Grid, flows: seq<Flow>, x: (nat, nat), t: int) {
    && x.0 < |flows| && x.1 < |flows[x.0].cells|
    && exists c :: At(g, c, t) == Some(Cell(x.0, x.1, flows[x.0].cells[x.1]))
  }

  lemma AloneInTimeslot(g: Grid, flows: seq<Flow>, x: (nat, nat), y: (nat, nat), t: int)
    requires ConflictFree(g) && AllMeet(flows) && LiesAt(g, flows, x, t) && LiesAt(g, flows, y, t)
    ensures x == y
  {
    var c :| At(g, c, t) == Some(Cell(x.0, x.1, flows[x.0].cells[x.1]));
    var d :| At(g, d, t) == Some(Cell(y.0, y.1, flows[y.0].cells[y.1]));
    assert c == d;
  }

  /** Cells that each have a timeslot to themselves need as many timeslots. */
  lemma {:induction false} TimeslotEach(g: Grid, flows: seq<Flow>, cells: set<(nat, nat)>, times: set<int>)
    requires ConflictFree(g) && AllMeet(flows) && forall x :: x in cells ==> exists t :: t in times && LiesAt(g, flows, x, t)
    ensures |cells| <= |times|
    decreases |cells|
  {
    hide ConflictFree, AllMeet, LiesAt;
    if x :| x in cells {
      var t :| t in times && LiesAt(g, flows, x, t);
      forall y | y in cells - {x} ensures exists u :: u in times - {t} && LiesAt(g, flows, y, u) {
        var u :| u in times && LiesAt(g, flows, y, u);
        if u == t {
          AloneInTimeslot(g, flows, x, y, t);
        }
      }
      TimeslotEach(g, flows, cells - {x}, times - {t});
    }
  }

  ghost function Span(lo: int, hi: int): (r: set<int>)
    requires lo <= hi
    ensures |r| == hi - lo && forall t :: t in r <==> lo <= t < hi
    decreases hi - lo
  {
    if lo == hi then {} else Span(lo, hi - 1) + {hi - 1}
  }

  /** The first n cells of flow i. */
  ghost function Row(i: nat, n: nat): set<(nat, nat)> {
    if n == 0 then {} else Row(i, n - 1) + {(i, n - 1)}
  }

  lemma {:induction false} RowIs(i: nat, n: nat, x: (nat, nat))
    ensures x in Row(i, n) <==> x.0 == i && x.1 < n
  {
    if n > 0 {
      RowIs(i, n - 1, x);
    }
  }

  lemma {:induction false} RowCount(i: nat, n: nat)
    ensures |Row(i, n)| == n
  {
    if n > 0 {
      RowCount(i, n - 1);
      RowIs(i, n - 1, (i, n - 1));
    }
  }

  /** The cells of the first n flows. */
  ghost function CellsOf(flows: seq<Flow>, n: nat): set<(nat, nat)>
    requires n <= |flows|
  {
    if n == 0 then {} else CellsOf(flows, n - 1) + Row(n - 1, |flows[n - 1].cells|)
  }

  lemma {:induction false} CellsOfIs(flows: seq<Flow>, n: nat, x: (nat, nat))
    requires n <= |flows|
    ensures x in CellsOf(flows, n) <==> x.0 < n && x.1 < |flows[x.0].cells|
  {
    if n > 0 {
      CellsOfIs(flows, n - 1, x);
      RowIs(n - 1, |flows[n - 1].cells|, x);
    }
  }

  lemma {:induction false} CellsOfCount(flows: seq<Flow>, n: nat)
    requires n <= |flows|
    ensures |CellsOf(flows, n)| == Backlog(flows, 0, n)
  {
    if n > 0 {
      CellsOfCount(flows, n - 1);
      var rest, row := CellsOf(flows, n - 1), Row(n - 1, |flows[n - 1].cells|);
      forall x | x in rest ensures x !in row {
        CellsOfIs(flows, n - 1, x);
        RowIs(n - 1, |flows[n - 1].cells|, x);
      }
      RowCount(n - 1, |flows[n - 1].cells|);
      DisjointCount(rest, row);
    }
  }

  lemma DisjointCount(a: set<(nat, nat)>, b: set<(nat, nat)>)
    requires a !! b
    ensures |a + b| == |a| + |b|
  {
  }

  /** If every two cells meet, the loop can end only with a timeslot for every cell. */
  lemma MeetingNeedsRoom(r: Run, release: nat)
    requires r.Given() && r.Ended() && AllMeet(r.flows)
    requires forall i :: 0 <= i < |r.flows| ==> release <= r.flows[i].release
    ensures Backlog(r.flows, 0, |r.flows|) == 0 || release + Backlog(r.flows, 0, |r.flows|) <= r.slots
  {
    var cells := CellsOf(r.flows, |r.flows|);
    forall x ensures x in cells <==> x in r.Start().pending {
      CellsOfIs(r.flows, |r.flows|, x);
    }
    hide r.State, CellsOf, AllMeet, At, Backlog, PrefixOccupied, ConflictFree, LiesAt;
    var g := r.State(|r.turns|).grid;
    var times := if release <= r.slots then Span(release, r.slots) else {};
    forall x | x in cells ensures exists t :: t in times && LiesAt(g, r.flows, x, t) {
      CellLies(r, release, x);
    }
    StateKeeps(r, |r.turns|, |r.turns|);
    CellsOfCount(r.flows, |r.flows|);
    TimeslotEach(g, r.flows, cells, times);
  }

  lemma CellLies(r: Run, release: nat, x: (nat, nat))
    requires r.Given() && r.Ended() && x in r.Start().pending
    requires forall i :: 0 <= i < |r.flows| ==> release <= r.flows[i].release
    ensures exists t :: release <= t < r.slots && LiesAt(r.State(|r.turns|).grid, r.flows, x, t)
  {
    hide PrefixOccupied, ConflictFree, Rect, After, TurnFrom, At;
    StateFirst(r);
    var m := PlacedBetween(r, 0, |r.turns|, x);
    TurnPuts(r, m, x.1);
    var (c, t) := r.TurnAt(m).at[x.1];
    assert LiesAt(r.State(|r.turns|).grid, r.flows, x, t);
  }

  /** Flows released together whose cells all meet: whatever the choice, the loop ends exactly if
      there is a timeslot for every cell behind the release. */
  lemma MeetingEndsIff(slots: nat, flows: seq<Flow>, g: Grid, choice: nat -> nat, release: nat)
    requires Picks(slots, flows, g, choice) && Empty(g) && AllMeet(flows)
    requires (forall i :: 0 <= i < |flows| ==> flows[i].release == release) && 0 < Backlog(flows, 0, |flows|)
    ensures Ends(slots, flows, g, choice) <==> release + Backlog(flows, 0, |flows|) <= slots
  {
    hide Sound, AllMeet, At, Backlog;
    if Ends(slots, flows, g, choice) {
      var n: nat :| Following(slots, flows, g, choice, n).Ended();
      MeetingNeedsRoom(Following(slots, flows, g, choice, n), release);
    }
    if release + Backlog(flows, 0, |flows|) <= slots {
      LatestOfSame(flows, release);
      EndsWithRoom(slots, flows, g, choice);
    }
  }

  lemma {:induction false} LatestOfSame(flows: seq<Flow>, release: nat)
    requires forall i :: 0 <= i < |flows| ==> flows[i].release == release
    ensures LatestRelease(flows) <= release
    decreases |flows|
  {
    if flows != [] {
      LatestOfSame(flows[..|flows| - 1], release);
    }
  }

  // ---------------------------------------------------------------------------
  // Runs

  /** A sliding window of five slots on a path of two nodes: four cells, but the grid is laid out
      with one timeslot for each node of the path. */
  function TwoNodeFlow(): Flow {
    Flow(0, 1, 0, 100, [[1, 2], [1, 2], [1, 2], [1, 2]])
  }

  lemma TwoNodesMeet()
    ensures AllMeet([TwoNodeFlow()]) && Backlog([TwoNodeFlow()], 0, 1) == 4
  {
    var flows := [TwoNodeFlow()];
    assert forall k :: 0 <= k < 4 ==> flows[0].cells[k] == [1, 2];
    assert 1 in [1, 2];
    assert Backlog(flows, 0, 1) == Backlog(flows, 0, 0) + |flows[0].cells|;
  }

  /** However long C-LLF runs on it, the loop does not end, and no deadline is missed. */
  method NeverDone(mode: Mode, rounds: nat) returns (o: Outcome)
    requires mode != Enabled
    ensures o == Unfinished
  {
    var s := new Schedule(2, 2);
    ghost var g := s.grid;
    var flows := [TwoNodeFlow()];
    ghost var turns, at;
    ghost var when, now;
    o, turns, when, now, at := s.ScheduleByLaxity(flows, mode, 1, rounds);
    TwoNodesMeet();
    hide After, Legal, AllMeet, AllTurnsDone, Clean, Backlog, LatestRelease, NextTurnMisses;
    ghost var r := Run(2, flows, g, turns);
    assert turns[..|turns|] == turns;
    if o == Placed {
      MeetingNeedsRoom(r, 0);
    } else if o == Missed {
      ghost var i :| NextTurnMisses(2, flows, r.Start(), turns, i, 1);
      NeverLate(r, i);
    }
  }

  /** Both timeslots are in time. */
  lemma NeverLate(r: Run, i: int)
    requires r.Given() && r.slots == 2 && r.flows == [TwoNodeFlow()]
    ensures !NextTurnMisses(2, r.flows, r.Start(), r.turns, i, 1)
  {
    hide After, TurnFrom, PrefixOccupied, ConflictFree, Rect, Extends;
    var n, f := |r.turns|, TwoNodeFlow();
    assert r.turns[..n] == r.turns;
    StateKeeps(r, n, n);
    if NextTurnMisses(2, r.flows, r.Start(), r.turns, i, 1) {
      var at := TurnOf(r.State(n), 2, r.flows, 0).at;
      var k :| k in at && Misses(f, 1, at[k].1);
      TurnPlaces(r.State(n).grid, 2, f, 0, 0, 0, k);
    }
  }

  /** Four nodes in a row, with one transmission expected on the last link and two on the others:
      five cells on four timeslots. */
  function RowFlow(): Flow {
    Flow(0, 1, 0, 100, [[1, 2], [1, 2], [2, 3], [2, 3], [3, 4]])
  }

  function RowCell(k: nat): Cell
    requires k < 5
  {
    Cell(0, k, RowFlow().cells[k])
  }

  /** The first k timeslots hold the first k cells. */
  function RowUpTo(k: nat): seq<Slot> {
    seq(4, t requires 0 <= t < 4 => if t < k then Some(RowCell(t)) else None)
  }

  /** Cells k to 3 in their timeslots. */
  function RowFrom(k: nat): map<nat, Position>
    decreases 4 - k
  {
    if k >= 4 then map[] else RowFrom(k + 1)[k := (0, k)]
  }

  lemma {:induction false} FirstRowTurn(k: nat)
    requires k <= 4
    ensures TurnFrom([RowUpTo(k), RowUpTo(0)], 4, RowFlow(), 0, k, k)
      == Turned([RowUpTo(4), RowUpTo(0)], RowFrom(k))
    decreases 4 - k
  {
    var g: Grid := [RowUpTo(k), RowUpTo(0)];
    if k == 4 {
      assert TurnFrom(g, 4, RowFlow(), 0, 5, 4) == Turned(g, map[]);
    } else {
      FirstRowTurn(k + 1);
      RowOpen(k);
      hide NextOpen, Put, RowUpTo;
    }
  }

  lemma RowOpen(k: nat)
    requires k < 4
    ensures NextOpen([RowUpTo(k), RowUpTo(0)], 4, RowFlow().cells[k], k) == Some((0, k))
    ensures Put([RowUpTo(k), RowUpTo(0)], 0, k, RowCell(k)) == [RowUpTo(k + 1), RowUpTo(0)]
  {
    assert RowUpTo(k)[k := Some(RowCell(k))] == RowUpTo(k + 1);
  }

  lemma TakenForAll(k: nat)
    requires k < 4
    ensures NextOpen([RowUpTo(4), RowUpTo(0)], 4, RowFlow().cells[k], 0) == None
  {
    var p := RowFlow().cells[k];
    var g: Grid := [RowUpTo(4), RowUpTo(0)];
    forall t | 0 <= t < 4 ensures Scan(g, 4, t, p, 0) == None {
      assert 2 in p && 2 in RowFlow().cells[t];
      assert g[0][t] == Some(RowCell(t));
    }
    NextOpenIs(g, 4, p, 0, None);
  }

  lemma SecondRowTurn()
    ensures TurnFrom([RowUpTo(4), RowUpTo(0)], 4, RowFlow(), 0, 0, 0).at == map[4 := (1, 0)]
  {
    var f := RowFlow();
    var g: Grid := [RowUpTo(4), RowUpTo(0)];
    TakenForAll(0);
    TakenForAll(1);
    TakenForAll(2);
    TakenForAll(3);
    assert !Intersects(f.cells[4], RowCell(0).participants);
    assert Scan(g, 4, 0, f.cells[4], 0) == Scan(g, 4, 0, f.cells[4], 1) == Some(1);
    assert NextOpen(g, 4, f.cells[4], 0) == Some((1, 0));
    assert TurnFrom(g, 4, f, 0, 4, 0).at == map[4 := (1, 0)];
    hide NextOpen;
    assert TurnFrom(g, 4, f, 0, 3, 0).at == map[4 := (1, 0)];
    assert TurnFrom(g, 4, f, 0, 2, 0).at == map[4 := (1, 0)];
    assert TurnFrom(g, 4, f, 0, 1, 0).at == map[4 := (1, 0)];
  }

  function RowRun(): Run {
    Run(4, [RowFlow()], [RowUpTo(0), RowUpTo(0)], [0, 0])
  }

  lemma RowTurns()
    ensures RowRun().Given() && Empty(RowRun().grid)
    ensures RowRun().TurnAt(0).at == RowFrom(0)
    ensures RowRun().TurnAt(1).at == map[4 := (1, 0)]
  {
    hide TurnFrom, RowFrom;
    var r := RowRun();
    assert r.turns[..0] == [] && r.turns[..1] == [0] && r.turns[..1][..0] == [];
    FirstRowTurn(0);
    SecondRowTurn();
    StateNext(r, 0);
  }

  lemma RowCells(x: (nat, nat))
    ensures x in RowRun().Start().pending <==> x.0 == 0 && x.1 < 5
  {
  }

  lemma RowKeys(k: nat)
    ensures k in RowFrom(0) <==> k < 4
  {
  }

  lemma RowPending(x: (nat, nat))
    ensures RowRun().Given() && x !in RowRun().State(2).pending
    ensures x == (0, 4) ==> x in RowRun().State(0).pending && x in RowRun().State(1).pending
  {
    hide PrefixOccupied, ConflictFree, Rect, After, Unscheduled, TurnFrom, RowUpTo, RowFlow, RowFrom;
    var r := RowRun();
    RowTurns();
    StateFirst(r);
    RowCells(x);
    RowKeys(x.1);
    StateNext(r, 0);
    StateNext(r, 1);
  }

  lemma RowStates()
    ensures RowRun().Given() && (0, 4) in RowRun().State(0).pending && (0, 4) in RowRun().State(1).pending
    ensures RowRun().Ended() && !RowRun().Whole(0)
  {
    var r := RowRun();
    RowPending((0, 4));
    RowTurns();
    RowKeys(4);
    hide PrefixOccupied, ConflictFree, Rect, After, Unscheduled, TurnFrom, RowUpTo, RowFrom, r.State;
    forall x ensures x !in r.State(2).pending {
      RowPending(x);
    }
  }

  /** The last cell finds no timeslot in the first turn and the very first one in the second: the
      loop ends, with the last hop before all others. */
  lemma EndsOutOfOrder()
    ensures var r := RowRun();
      r.Possible() && r.Ended() && !PathOrdered(r.State(2).grid)
  {
    var r := RowRun();
    RowTurns();
    RowStates();
    hide PrefixOccupied, ConflictFree, Rect, After, Unscheduled, TurnFrom, RowUpTo, RowFlow, r.Whole, PathOrdered;
    PendingWitness(r.State(0), 0, (0, 4));
    PendingWitness(r.State(1), 0, (0, 4));
    OrderIff(r);
  }
}
