/** The lattice engine: a board of size x size Hex cells stored in a two-dimensional
    array and updated in place. The ghost field Cells is the board's contents as a value;
    every method is specified through it and the functions of Lattice, Observables and
    Dynamics. */
module Engine {
  import opened GridSums
  import opened Topology
  import opened Lattice
  import opened Observables
  import opened Dynamics

  /** The number of occupied cells in a list, counted one by one. */
  method CountOccupied(cells: seq<Hex>) returns (count: nat)
    ensures count == OccupiedCount(cells)
  {
    count := 0;
    for k := 0 to |cells|
      invariant count == OccupiedCount(cells[..k])
    {
      assert cells[..k + 1][..k] == cells[..k];
      if cells[k].value {
        count := count + 1;
      }
    }
    assert cells[..|cells|] == cells;
  }

  class HexBoard {
    const size: Size
    const grid: array2<Hex>

    /** The contents of grid, as a value. */
    ghost var Cells: Grid

    ghost predicate Valid()
      reads this, grid
    {
      grid.Length0 == size && grid.Length1 == size &&
      WellFormed(Cells, size) &&
      forall x, y :: 0 <= x < size && 0 <= y < size ==> grid[x, y] == Cells[x][y]
    }

    /** A board of size columns of size cells, each at its own coordinates and empty. */
    constructor (size: Size)
      ensures Valid() && fresh(grid) && this.size == size
      ensures Cells == EmptyGrid(size)
      ensures Population(Cells, size) == 0
    {
      var a := new Hex[size, size];
      for x := 0 to size
        invariant forall i, j :: 0 <= i < x && 0 <= j < size ==> a[i, j] == NewHex(i, j)
      {
        for y := 0 to size
          invariant forall i, j :: 0 <= i < x && 0 <= j < size ==> a[i, j] == NewHex(i, j)
          invariant forall j :: 0 <= j < y ==> a[x, j] == NewHex(x, j)
        {
          a[x, y] := NewHex(x, y);
        }
      }
      this.size := size;
      grid := a;
      Cells := EmptyGrid(size);
      new;
      EmptyGridPopulation(size);
    }

    /** A copy of the cell at (x, y). */
    method GetCell(x: nat, y: nat) returns (hex: Hex)
      requires Valid() && x < size && y < size
      ensures hex == Cells[x][y] && hex.x == x && hex.y == y
    {
      hex := grid[x, y];
    }

    /** Sets the occupancy of (x, y); no other cell and no coordinate changes. */
    method SetCell(x: nat, y: nat, value: bool)
      requires Valid() && x < size && y < size
      modifies this, grid
      ensures Valid()
      ensures Cells == SetValue(old(Cells), size, x, y, value)
    {
      grid[x, y] := grid[x, y].(value := value);
      Cells := SetValue(Cells, size, x, y, value);
    }

    /** Random initial placement of n particles by rejection sampling. Each draw is taken
        from draws in turn (column below size, row below size - 1); a draw that hits an
        occupied cell is retried. Returns how many particles were placed and how many
        draws were used: the placement completes (placed == n) unless the draws run out. */
    method Initialize(n: nat, draws: seq<Pick>) returns (placed: nat, used: nat)
      requires Valid() && InSampleRange(draws, size)
      modifies this, grid
      ensures Valid()
      ensures Fill(old(Cells), size, draws, 0, n) == Filled(Cells, placed, used)
      ensures placed == n || used == |draws|
      ensures Population(Cells, size) == Population(old(Cells), size) + placed
    {
      hide Fill;
      ghost var result := Fill(Cells, size, draws, 0, n);
      placed, used := 0, 0;
      while placed < n && used < |draws|
        invariant Valid() && placed <= n && used <= |draws|
        invariant FillsTo(Cells, size, draws, used, n - placed, result, placed)
        decreases |draws| - used
      {
        ghost var before := Cells;
        ghost var need := n - placed;
        var next, hit := PlaceOne(draws, used, need);
        if hit {
          FillsToChain(before, size, draws, used, need, result, placed, Cells, next, need - 1, 1);
          placed := placed + 1;
        } else {
          FillsToChain(before, size, draws, used, need, result, placed, Cells, next, need, 0);
        }
        used := next;
      }
      FillDone(Cells, size, draws, used, n - placed);
      FillPopulation(old(Cells), size, draws, 0, n);
    }

    /** The retry loop of one particle: draws from position from on until a draw hits an
        empty cell, which becomes occupied. Returns the position after the last draw taken
        and whether a particle was placed (false only when the draws ran out). In terms of
        Fill, with need particles still to place, this is the first placement. */
    method PlaceOne(draws: seq<Pick>, from: nat, ghost need: nat) returns (used: nat, hit: bool)
      requires Valid() && InSampleRange(draws, size) && from < |draws| && need > 0
      modifies this, grid
      ensures Valid() && from < used <= |draws|
      ensures !hit ==> used == |draws|
      ensures hit ==> FillsTo(Cells, size, draws, used, need - 1, Fill(old(Cells), size, draws, from, need), 1)
      ensures !hit ==> FillsTo(Cells, size, draws, used, need, Fill(old(Cells), size, draws, from, need), 0)
    {
      ghost var f := Fill(Cells, size, draws, from, need);
      used, hit := from, false;
      while !hit && used < |draws|
        invariant Valid() && from <= used <= |draws|
        invariant hit ==> from < used
        invariant !hit ==> FillsTo(Cells, size, draws, used, need, f, 0)
        invariant hit ==> FillsTo(Cells, size, draws, used, need - 1, f, 1)
        decreases |draws| - used
      {
        var pick := draws[used];
        var hex := GetCell(pick.x, pick.y);
        if !hex.value {
          SetCell(pick.x, pick.y, true);
          hit := true;
        }
        used := used + 1;
      }
    }

    /** The six neighbouring cells of (x, y), in the order of the direction table of the
        row's parity, each coordinate wrapped. */
    method GetNeighbours(x: nat, y: nat) returns (n: seq<Hex>)
      requires Valid() && x < size && y < size
      ensures n == Neighbours(Cells, size, x, y)
    {
      var dirs := if y % 2 == 0 then EvenRowOffsets else OddRowOffsets;
      n := [];
      for k := 0 to |dirs|
        invariant n == Neighbours(Cells, size, x, y)[..k]
      {
        var newx := WrapX(size, x + dirs[k].0);
        var newy := WrapY(size, y + dirs[k].1);
        n := n + [grid[newx, newy]];
      }
    }

    /** The number of occupied neighbours of the cell hex. */
    method GetEnergy(hex: Hex) returns (count: nat)
      requires Valid() && 0 <= hex.x < size && 0 <= hex.y < size
      ensures count == Energy(Cells, size, hex.x, hex.y)
    {
      var neighbours := GetNeighbours(hex.x, hex.y);
      count := CountOccupied(neighbours);
    }

    /** One timestep: every cell in turn, column by column, attempts to send its particle
        to the neighbour in direction dir(x, y). The hop is taken when the source's energy
        exceeds the destination's energy less one; otherwise the acceptance test is asked,
        and accept(x, y, delta) is its answer. Cells visited later see the hops made
        earlier in the same sweep. */
    method AdvanceTimestepRepulsive(dir: (nat, nat) -> Direction, accept: (nat, nat, int) -> bool)
      requires Valid()
      modifies this, grid
      ensures Valid()
      ensures Cells == Sweep(old(Cells), size, size, dir, accept)
      ensures Population(Cells, size) == Population(old(Cells), size)
    {
      hide Step;
      ghost var start := Cells;
      for x := 0 to size
        invariant Valid()
        invariant Cells == Sweep(start, size, x, dir, accept)
      {
        ghost var prev := Cells;
        SweepColumnInPlace(x, dir, accept);
        assert Sweep(start, size, x + 1, dir, accept) == SweepColumn(prev, size, x, size, dir, accept);
      }
      SweepConservesPopulation(start, size, size, dir, accept);
    }

    /** The turns of the cells of column x, from row 0 up. */
    method SweepColumnInPlace(x: nat, dir: (nat, nat) -> Direction, accept: (nat, nat, int) -> bool)
      requires Valid() && x < size
      modifies this, grid
      ensures Valid()
      ensures Cells == SweepColumn(old(Cells), size, x, size, dir, accept)
    {
      hide Step;
      ghost var start := Cells;
      for y := 0 to size
        invariant Valid()
        invariant Cells == SweepColumn(start, size, x, y, dir, accept)
      {
        ghost var prev := Cells;
        AttemptHop(x, y, dir, accept);
        assert SweepColumn(start, size, x, y + 1, dir, accept) == Step(prev, size, x, y, dir, accept);
      }
    }

    /** The turn of cell (x, y) within a timestep. */
    method AttemptHop(x: nat, y: nat, dir: (nat, nat) -> Direction, accept: (nat, nat, int) -> bool)
      requires Valid() && x < size && y < size
      modifies this, grid
      ensures Valid()
      ensures Cells == Step(old(Cells), size, x, y, dir, accept)
    {
      StepByEnergies(Cells, size, x, y, dir, accept);
      var hop, dest := DecideHop(x, y, dir, accept);
      if hop {
        MoveParticle(x, y, dest.x, dest.y);
      }
    }

    /** Whether the particle of (x, y) hops, and the neighbour it would hop to: it hops when
        the neighbour is empty and either the particle's energy exceeds the neighbour's
        energy less one or the acceptance test says yes. */
    method DecideHop(x: nat, y: nat, dir: (nat, nat) -> Direction, accept: (nat, nat, int) -> bool)
      returns (hop: bool, dest: Hex)
      requires Valid() && x < size && y < size
      ensures dest == Neighbours(Cells, size, x, y)[dir(x, y)]
      ensures 0 <= dest.x < size && 0 <= dest.y < size
      ensures var startEnergy := Energy(Cells, size, x, y);
              var endEnergy := Energy(Cells, size, dest.x, dest.y) - 1;
              hop == (!dest.value && Cells[x][y].value &&
                      (startEnergy > endEnergy || accept(x, y, startEnergy - endEnergy)))
    {
      var hex := GetCell(x, y);
      var startEnergy := GetEnergy(hex);
      assert startEnergy == Energy(Cells, size, x, y);
      var ne := GetNeighbours(x, y);
      var i := dir(x, y);
      dest := ne[i];
      hop := false;
      if !dest.value && hex.value {
        var destEnergy := GetEnergy(dest);
        assert destEnergy == Energy(Cells, size, dest.x, dest.y);
        var endEnergy := destEnergy as int - 1;
        if startEnergy > endEnergy {
          hop := true;
        } else {
          var delta: int := startEnergy - endEnergy;
          var check := accept(x, y, delta);
          assert delta == Energy(Cells, size, x, y) - (Energy(Cells, size, dest.x, dest.y) - 1);
          hop := check;
        }
      } else {
        assert !(!dest.value && Cells[x][y].value);
      }
    }

    /** The particle at (sx, sy) hops to (tx, ty). */
    method MoveParticle(sx: nat, sy: nat, tx: nat, ty: nat)
      requires Valid() && sx < size && sy < size && tx < size && ty < size
      modifies this, grid
      ensures Valid()
      ensures Cells == Move(old(Cells), size, sx, sy, tx, ty)
    {
      SetCell(sx, sy, false);
      SetCell(tx, ty, true);
    }

    /** Total energy: for every occupied cell, the number of its occupied neighbours. */
    method TotalEnergy() returns (count: nat)
      requires Valid()
      ensures count == GridEnergy(Cells, size)
      ensures count <= 6 * Population(Cells, size)
    {
      hide EnergyW;
      ghost var w := EnergyW(Cells, size);
      count := 0;
      for i := 0 to size
        invariant count == GridSum(w, i, size)
      {
        for j := 0 to size
          invariant count == GridSum(w, i, size) + ColumnSum(w, i, j)
        {
          var e := CellEnergy(i, j);
          count := count + e;
        }
      }
      GridEnergyBounds(Cells, size);
    }

    /** What (x, y) adds to the total energy: its energy if it is occupied, else 0. */
    method CellEnergy(x: nat, y: nat) returns (e: nat)
      requires Valid() && x < size && y < size
      ensures e == EnergyW(Cells, size)(x, y)
    {
      EnergyWAt(Cells, size, x, y);
      e := 0;
      if grid[x, y].value {
        var n := GetNeighbours(x, y);
        e := CountOccupied(n);
      }
    }

    /** The occupied cells of the three sublattices a, b and c, counted in three passes
        over the board, one per class. */
    method OrderCounts() returns (countA: nat, countB: nat, countC: nat)
      requires Valid()
      ensures countA == ClassCount(Cells, size, 0)
      ensures countB == ClassCount(Cells, size, 1)
      ensures countC == ClassCount(Cells, size, 2)
      ensures countA + countB + countC == Population(Cells, size)
    {
      hide InClass;
      countA, countB, countC := 0, 0, 0;
      for i := 0 to 3
        invariant countA == Pass(0, i, 0, 0)
        invariant countB == Pass(1, i, 0, 0)
        invariant countC == Pass(2, i, 0, 0)
      {
        for x := 0 to size
          invariant countA == Pass(0, i, x, 0)
          invariant countB == Pass(1, i, x, 0)
          invariant countC == Pass(2, i, x, 0)
        {
          for y := 0 to size
            invariant countA == Pass(0, i, x, y)
            invariant countB == Pass(1, i, x, y)
            invariant countC == Pass(2, i, x, y)
          {
            var hex := GetCell(x, y);
            assert ColumnSum(ClassW(Cells, i), x, y + 1)
                == ColumnSum(ClassW(Cells, i), x, y) + if InClass(i, x, y) && hex.value then 1 else 0;
            if InClass(i, x, y) && hex.value {
              if i == 0 {
                countA := countA + 1;
              } else if i == 1 {
                countB := countB + 1;
              } else {
                countC := countC + 1;
              }
            }
          }
        }
      }
      ClassCountsPartition(Cells, size);
    }

    /** Progress of the counter of class k while pass i has reached cell (x, y): complete
        for the classes of earlier passes, partial for the current one, zero for later ones. */
    ghost function Pass(k: nat, i: nat, x: nat, y: nat): int
      reads this
    {
      if k < i then ClassCount(Cells, size, k)
      else if k == i then GridSum(ClassW(Cells, k), x, size) + ColumnSum(ClassW(Cells, k), x, y)
      else 0
    }

    /** Numerator of the single order parameter: the class counts weighted 1, 2 and 3. It
        lies between the population and three times the population. */
    method OrderSingleCount() returns (weight: nat)
      requires Valid()
      ensures weight == OrderWeight(Cells, size)
      ensures Population(Cells, size) <= weight <= 3 * Population(Cells, size)
    {
      var countA, countB, countC := OrderCounts();
      weight := countA + 2 * countB + 3 * countC;
      OrderWeightBounds(Cells, size);
    }
  }
}
