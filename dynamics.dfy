/** The two operations that change a board, as functions on values: random initial
    placement, and the repulsive sweep in which every cell in turn attempts one hop.
    The random generator is not modelled; its draws are parameters: a finite stream of
    picked cells for placement, and for the sweep a direction and an acceptance outcome
    per visited cell. */
module Dynamics {
  import opened GridSums
  import opened Topology
  import opened Lattice
  import opened Observables

  /** How a hop from a cell towards a chosen neighbour is decided.
      Blocked: the source is empty or the destination occupied, nothing happens.
      Downhill: the hop is taken without consulting the acceptance test.
      Uphill(delta): the acceptance test is consulted with energy difference delta. */
  datatype Decision = Blocked | Downhill | Uphill(delta: int)

  /** The decision for the cell (x, y) and direction d. The destination's energy after the
      hop is approximated by its current energy minus one. */
  ghost function Decide(g: Grid, size: Size, x: nat, y: nat, d: Direction): (r: Decision)
    requires WellFormed(g, size) && x < size && y < size
    ensures r != Blocked ==> g[x][y].value
    ensures r.Uphill? ==> r.delta <= 0
  {
    var hex := g[x][y];
    var startEnergy := Energy(g, size, hex.x, hex.y);
    var dest := Neighbours(g, size, x, y)[d];
    if !dest.value && hex.value then
      var endEnergy := Energy(g, size, dest.x, dest.y) - 1;
      if startEnergy > endEnergy then Downhill else Uphill(startEnergy - endEnergy)
    else Blocked
  }

  /** A hop is considered exactly when the source is occupied and its neighbour in direction
      d is empty; it is downhill exactly when the source's energy is at least the
      destination's; an uphill hop has a non-positive energy difference. */
  lemma DecideCases(g: Grid, size: Size, x: nat, y: nat, d: Direction)
    requires WellFormed(g, size) && x < size && y < size
    ensures var r := Decide(g, size, x, y, d);
            var t := Target(size, x, y, d);
            (r != Blocked <==> g[x][y].value && !g[t.x][t.y].value) &&
            (r.Downhill? <==> r != Blocked && Energy(g, size, x, y) >= Energy(g, size, t.x, t.y)) &&
            (r.Uphill? ==> r.delta <= 0)
  {
    var t := Target(size, x, y, d);
    var dest := Neighbours(g, size, x, y)[d];
    assert g[x][y].x == x && g[x][y].y == y;
    assert dest.x == t.x && dest.y == t.y && dest == g[t.x][t.y];
  }

  /** A cell's turn spelled out in the energies the engine computes. */
  lemma StepByEnergies(g: Grid, size: Size, x: nat, y: nat,
                       dir: (nat, nat) -> Direction, accept: (nat, nat, int) -> bool)
    requires WellFormed(g, size) && x < size && y < size
    ensures var dest := Neighbours(g, size, x, y)[dir(x, y)];
            var startEnergy := Energy(g, size, x, y);
            var endEnergy := Energy(g, size, dest.x, dest.y) - 1;
            Step(g, size, x, y, dir, accept) ==
              if !dest.value && g[x][y].value then
                if startEnergy > endEnergy || accept(x, y, startEnergy - endEnergy)
                then Move(g, size, x, y, dest.x, dest.y)
                else g
              else g
  {
    var hex := g[x][y];
    var dest := Neighbours(g, size, x, y)[dir(x, y)];
    var t := Target(size, x, y, dir(x, y));
    assert hex.x == x && hex.y == y;
    assert dest.x == t.x && dest.y == t.y;
    var startEnergy := Energy(g, size, x, y);
    var endEnergy := Energy(g, size, dest.x, dest.y) - 1;
    var decision := Decide(g, size, x, y, dir(x, y));
    if !dest.value && hex.value {
      if startEnergy > endEnergy {
        assert decision == Downhill;
        assert Step(g, size, x, y, dir, accept) == Move(g, size, x, y, t.x, t.y);
      } else {
        assert decision == Uphill(startEnergy - endEnergy);
        assert Step(g, size, x, y, dir, accept) ==
          if accept(x, y, startEnergy - endEnergy) then Move(g, size, x, y, t.x, t.y) else g;
      }
    } else {
      assert decision == Blocked;
      assert Step(g, size, x, y, dir, accept) == g;
    }
  }

  /** The particle at (sx, sy) hops to (tx, ty). */
  ghost function Move(g: Grid, size: Size, sx: nat, sy: nat, tx: nat, ty: nat): (r: Grid)
    requires WellFormed(g, size) && sx < size && sy < size && tx < size && ty < size
    ensures WellFormed(r, size)
    ensures r[tx][ty].value
    ensures (sx != tx || sy != ty) ==> !r[sx][sy].value
  {
    SetValue(SetValue(g, size, sx, sy, false), size, tx, ty, true)
  }

  /** One cell's turn in a sweep: the direction is dir(x, y) and the acceptance test,
      when consulted, answers accept(x, y, delta). */
  ghost function Step(g: Grid, size: Size, x: nat, y: nat,
                      dir: (nat, nat) -> Direction, accept: (nat, nat, int) -> bool): (r: Grid)
    requires WellFormed(g, size) && x < size && y < size
    ensures WellFormed(r, size)
  {
    var t := Target(size, x, y, dir(x, y));
    match Decide(g, size, x, y, dir(x, y))
    case Blocked => g
    case Downhill => Move(g, size, x, y, t.x, t.y)
    case Uphill(delta) => if accept(x, y, delta) then Move(g, size, x, y, t.x, t.y) else g
  }

  /** The turns of cells (x, 0), ..., (x, n - 1), each on the board left by the one before. */
  ghost function SweepColumn(g: Grid, size: Size, x: nat, n: nat,
                             dir: (nat, nat) -> Direction, accept: (nat, nat, int) -> bool): (r: Grid)
    requires WellFormed(g, size) && x < size && n <= size
    ensures WellFormed(r, size)
    decreases n
  {
    if n == 0 then g
    else Step(SweepColumn(g, size, x, n - 1, dir, accept), size, x, n - 1, dir, accept)
  }

  /** The turns of every cell of columns 0, ..., m - 1, in order; Sweep(g, size, size, ...)
      is one full timestep. */
  ghost function Sweep(g: Grid, size: Size, m: nat,
                       dir: (nat, nat) -> Direction, accept: (nat, nat, int) -> bool): (r: Grid)
    requires WellFormed(g, size) && m <= size
    ensures WellFormed(r, size)
    decreases m
  {
    if m == 0 then g
    else SweepColumn(Sweep(g, size, m - 1, dir, accept), size, m - 1, size, dir, accept)
  }

  /** A hop from an occupied cell to an empty one leaves the population unchanged. */
  lemma MoveConservesPopulation(g: Grid, size: Size, sx: nat, sy: nat, tx: nat, ty: nat)
    requires WellFormed(g, size) && sx < size && sy < size && tx < size && ty < size
    requires g[sx][sy].value && !g[tx][ty].value
    ensures Population(Move(g, size, sx, sy, tx, ty), size) == Population(g, size)
  {
    var g1 := SetValue(g, size, sx, sy, false);
    PopulationSetValue(g, size, sx, sy, false);
    assert g1[tx][ty] == g[tx][ty];
    PopulationSetValue(g1, size, tx, ty, true);
  }

  /** A cell's turn neither creates nor destroys particles. */
  lemma StepConservesPopulation(g: Grid, size: Size, x: nat, y: nat,
                                dir: (nat, nat) -> Direction, accept: (nat, nat, int) -> bool)
    requires WellFormed(g, size) && x < size && y < size
    ensures Population(Step(g, size, x, y, dir, accept), size) == Population(g, size)
  {
    var t := Target(size, x, y, dir(x, y));
    DecideCases(g, size, x, y, dir(x, y));
    if Decide(g, size, x, y, dir(x, y)) != Blocked {
      MoveConservesPopulation(g, size, x, y, t.x, t.y);
    }
  }

  /** A cell's turn changes at most two cells, itself and its chosen neighbour: if anything
      changes, a particle has left the source (occupied before, empty after) for the
      destination (empty before, occupied after). */
  lemma StepFrame(g: Grid, size: Size, x: nat, y: nat,
                  dir: (nat, nat) -> Direction, accept: (nat, nat, int) -> bool)
    requires WellFormed(g, size) && x < size && y < size
    ensures var t := Target(size, x, y, dir(x, y));
            var r := Step(g, size, x, y, dir, accept);
            (forall i, j :: 0 <= i < size && 0 <= j < size && (i != x || j != y) && (i != t.x || j != t.y)
               ==> r[i][j] == g[i][j]) &&
            (r == g || (g[x][y].value && !g[t.x][t.y].value && !r[x][y].value && r[t.x][t.y].value))
  {
    var t := Target(size, x, y, dir(x, y));
    DecideCases(g, size, x, y, dir(x, y));
    if Decide(g, size, x, y, dir(x, y)) != Blocked {
      var g1 := SetValue(g, size, x, y, false);
      assert g1[t.x][t.y] == g[t.x][t.y];
    }
  }

  /** The hop rule: a hop happens exactly when the decision is downhill, or uphill and the
      acceptance test (consulted with a non-positive difference) says yes; on downhill and
      blocked turns the acceptance test's answers make no difference. */
  lemma StepRule(g: Grid, size: Size, x: nat, y: nat,
                 dir: (nat, nat) -> Direction, accept: (nat, nat, int) -> bool, accept': (nat, nat, int) -> bool)
    requires WellFormed(g, size) && x < size && y < size
    ensures var d := Decide(g, size, x, y, dir(x, y));
            Step(g, size, x, y, dir, accept) != g <==> d.Downhill? || (d.Uphill? && accept(x, y, d.delta))
    ensures !Decide(g, size, x, y, dir(x, y)).Uphill? ==>
            Step(g, size, x, y, dir, accept) == Step(g, size, x, y, dir, accept')
  {
    var d := Decide(g, size, x, y, dir(x, y));
    DecideCases(g, size, x, y, dir(x, y));
    var r: Grid := Step(g, size, x, y, dir, accept);
    if d.Downhill? || (d.Uphill? && accept(x, y, d.delta)) {
      assert r[x][y].value != g[x][y].value;
    }
  }

  lemma {:induction false} SweepColumnConservesPopulation(g: Grid, size: Size, x: nat, n: nat,
                                                          dir: (nat, nat) -> Direction, accept: (nat, nat, int) -> bool)
    requires WellFormed(g, size) && x < size && n <= size
    ensures Population(SweepColumn(g, size, x, n, dir, accept), size) == Population(g, size)
    decreases n
  {
    hide Step;
    if n > 0 {
      var prev := SweepColumn(g, size, x, n - 1, dir, accept);
      SweepColumnConservesPopulation(g, size, x, n - 1, dir, accept);
      StepConservesPopulation(prev, size, x, n - 1, dir, accept);
      assert SweepColumn(g, size, x, n, dir, accept) == Step(prev, size, x, n - 1, dir, accept);
    }
  }

  /** Conservation law: a sweep, whatever the random draws, keeps the number of particles. */
  lemma {:induction false} SweepConservesPopulation(g: Grid, size: Size, m: nat,
                                                    dir: (nat, nat) -> Direction, accept: (nat, nat, int) -> bool)
    requires WellFormed(g, size) && m <= size
    ensures Population(Sweep(g, size, m, dir, accept), size) == Population(g, size)
    decreases m
  {
    hide Step;
    if m > 0 {
      var prev := Sweep(g, size, m - 1, dir, accept);
      SweepConservesPopulation(g, size, m - 1, dir, accept);
      SweepColumnConservesPopulation(prev, size, m - 1, size, dir, accept);
      assert Sweep(g, size, m, dir, accept) == SweepColumn(prev, size, m - 1, size, dir, accept);
    }
  }

  /** One draw of initial placement: a column in [0, size) and a row in [0, size - 1). */
  datatype Pick = Pick(x: nat, y: nat)

  ghost predicate InSampleRange(draws: seq<Pick>, size: Size)
  {
    forall k :: 0 <= k < |draws| ==> draws[k].x < size && draws[k].y < size - 1
  }

  /** Outcome of placement: the board, the particles placed, and the position in the draw
      stream after the last draw consumed. */
  datatype Filled = Filled(grid: Grid, placed: nat, used: nat)

  /** Rejection sampling from position from of the draw stream: draws are taken in order;
      a draw on an empty cell occupies it, a draw on an occupied cell is discarded; it stops
      once need particles are placed or the draws run out. */
  ghost function Fill(g: Grid, size: Size, draws: seq<Pick>, from: nat, need: nat): (r: Filled)
    requires WellFormed(g, size) && InSampleRange(draws, size) && from <= |draws|
    ensures WellFormed(r.grid, size)
    ensures r.placed <= need && from <= r.used <= |draws|
    ensures r.placed == need || r.used == |draws|
    decreases |draws| - from
  {
    if need == 0 || from == |draws| then Filled(g, 0, from)
    else
      var p := draws[from];
      if !g[p.x][p.y].value then
        var f := Fill(SetValue(g, size, p.x, p.y, true), size, draws, from + 1, need - 1);
        Filled(f.grid, f.placed + 1, f.used)
      else
        Fill(g, size, draws, from + 1, need)
  }

  /** Placing need more particles from position from on, having already placed `placed`,
      ends in r. */
  ghost predicate FillsTo(g: Grid, size: Size, draws: seq<Pick>, from: nat, need: nat, r: Filled, placed: nat)
    requires WellFormed(g, size) && InSampleRange(draws, size) && from <= |draws|
  {
    var f := Fill(g, size, draws, from, need);
    f.grid == r.grid && f.placed + placed == r.placed && f.used == r.used
  }

  /** With nothing left to place, or no draw left, placement does nothing. */
  lemma FillDone(g: Grid, size: Size, draws: seq<Pick>, from: nat, need: nat)
    requires WellFormed(g, size) && InSampleRange(draws, size) && from <= |draws|
    requires need == 0 || from == |draws|
    ensures Fill(g, size, draws, from, need) == Filled(g, 0, from)
  {
  }

  /** Two stretches of placement, the second starting where the first left off, make one. */
  lemma FillsToChain(g: Grid, size: Size, draws: seq<Pick>, from: nat, need: nat, r: Filled, placed: nat,
                     g': Grid, from': nat, need': nat, placed': nat)
    requires WellFormed(g, size) && WellFormed(g', size) && InSampleRange(draws, size)
    requires from <= |draws| && from' <= |draws|
    requires FillsTo(g, size, draws, from, need, r, placed)
    requires FillsTo(g', size, draws, from', need', Fill(g, size, draws, from, need), placed')
    ensures FillsTo(g', size, draws, from', need', r, placed + placed')
  {
  }

  /** Each placed particle occupies a cell that was empty: the population, and the count
      of occupied cells outside the last row, both grow by exactly the number placed. */
  lemma {:induction false} FillPopulation(g: Grid, size: Size, draws: seq<Pick>, from: nat, need: nat)
    requires WellFormed(g, size) && InSampleRange(draws, size) && from <= |draws|
    ensures var f := Fill(g, size, draws, from, need);
            Population(f.grid, size) == Population(g, size) + f.placed &&
            SampleOccupied(f.grid, size) == SampleOccupied(g, size) + f.placed
    decreases |draws| - from
  {
    if need > 0 && from < |draws| {
      var p := draws[from];
      if !g[p.x][p.y].value {
        PopulationSetValue(g, size, p.x, p.y, true);
        FillPopulation(SetValue(g, size, p.x, p.y, true), size, draws, from + 1, need - 1);
      } else {
        FillPopulation(g, size, draws, from + 1, need);
      }
    }
  }

  /** Placement only ever occupies cells, never empties one, and never touches the last row. */
  lemma {:induction false} FillFrame(g: Grid, size: Size, draws: seq<Pick>, from: nat, need: nat)
    requires WellFormed(g, size) && InSampleRange(draws, size) && from <= |draws|
    ensures forall i, j :: 0 <= i < size && 0 <= j < size && g[i][j].value ==>
              Fill(g, size, draws, from, need).grid[i][j].value
    ensures forall i :: 0 <= i < size ==> Fill(g, size, draws, from, need).grid[i][size - 1] == g[i][size - 1]
    decreases |draws| - from
  {
    if need > 0 && from < |draws| {
      var p := draws[from];
      if !g[p.x][p.y].value {
        FillFrame(SetValue(g, size, p.x, p.y, true), size, draws, from + 1, need - 1);
      } else {
        FillFrame(g, size, draws, from + 1, need);
      }
    }
  }

  /** At most size * (size - 1) cells can be sampled, so placement can never place more
      than the empty cells outside the last row; once those are all occupied nothing more
      is placed and every further draw is rejected: asked for more, the source's retry
      loop would never end. */
  lemma FillCapacity(g: Grid, size: Size, draws: seq<Pick>, from: nat, need: nat)
    requires WellFormed(g, size) && InSampleRange(draws, size) && from <= |draws|
    ensures var f := Fill(g, size, draws, from, need);
            f.placed <= size * (size - 1) - SampleOccupied(g, size) &&
            (need > size * (size - 1) - SampleOccupied(g, size) ==> f.placed < need && f.used == |draws|)
  {
    FillPopulation(g, size, draws, from, need);
    PopulationBounds(Fill(g, size, draws, from, need).grid, size);
  }

  /** On a new board placement of n particles, when it completes, leaves exactly n
      particles, none in the last row, which requires n <= size * (size - 1). */
  lemma FillFreshBoard(size: Size, draws: seq<Pick>, n: nat)
    requires InSampleRange(draws, size)
    ensures var f := Fill(EmptyGrid(size), size, draws, 0, n);
            Population(f.grid, size) == f.placed &&
            (forall i :: 0 <= i < size ==> !f.grid[i][size - 1].value) &&
            (f.placed == n ==> Population(f.grid, size) == n && n <= size * (size - 1))
  {
    var g := EmptyGrid(size);
    EmptyGridPopulation(size);
    FillPopulation(g, size, draws, 0, n);
    FillFrame(g, size, draws, 0, n);
    FillCapacity(g, size, draws, 0, n);
    PopulationBounds(g, size);
  }
}
