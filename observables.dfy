/** The integer observables of a board: its population, its total energy, and the
    occupancy of the three sublattices behind the order parameters. */
module Observables {
  import opened GridSums
  import opened Topology
  import opened Lattice

  /** Weight 1 on occupied cells, 0 elsewhere (and off the board). */
  function OccW(g: Grid): (nat, nat) -> int
  {
    (i: nat, j: nat) => if i < |g| && j < |g[i]| && g[i][j].value then 1 else 0
  }

  /** The number of occupied cells. */
  ghost function Population(g: Grid, size: Size): int
  {
    GridSum(OccW(g), size, size)
  }

  /** The number of occupied cells outside the last row: the rows initial placement draws from. */
  ghost function SampleOccupied(g: Grid, size: Size): int
  {
    GridSum(OccW(g), size, size - 1)
  }

  /** Setting one cell changes the population by the change of that cell alone. */
  lemma PopulationSetValue(g: Grid, size: Size, x: nat, y: nat, v: bool)
    requires WellFormed(g, size) && x < size && y < size
    ensures Population(SetValue(g, size, x, y, v), size)
         == Population(g, size) - (if g[x][y].value then 1 else 0) + (if v then 1 else 0)
    ensures y < size - 1 ==>
      SampleOccupied(SetValue(g, size, x, y, v), size)
         == SampleOccupied(g, size) - (if g[x][y].value then 1 else 0) + (if v then 1 else 0)
  {
    var r := SetValue(g, size, x, y, v);
    GridSumUpdate(OccW(g), OccW(r), size, size, x, y);
    if y < size - 1 {
      GridSumUpdate(OccW(g), OccW(r), size, size - 1, x, y);
    }
  }

  /** The population lies between 0 and the number of cells; the occupied cells outside
      the last row number at most size * (size - 1). */
  lemma PopulationBounds(g: Grid, size: Size)
    requires WellFormed(g, size)
    ensures 0 <= Population(g, size) <= size * size
    ensures 0 <= SampleOccupied(g, size) <= size * (size - 1)
  {
    GridSumUnitBound(OccW(g), size, size);
    GridSumUnitBound(OccW(g), size, size - 1);
  }

  /** A new board holds no particle. */
  lemma EmptyGridPopulation(size: Size)
    ensures Population(EmptyGrid(size), size) == 0
  {
    var w := OccW(EmptyGrid(size));
    GridSumScaledBound(w, w, 0, size, size);
  }

  /** Weight of a cell in the total energy: its local energy if it is occupied. */
  ghost function EnergyW(g: Grid, size: Size): (nat, nat) -> int
  {
    (i: nat, j: nat) => if WellFormed(g, size) && i < size && j < size && g[i][j].value then Energy(g, size, i, j) else 0
  }

  lemma EnergyWAt(g: Grid, size: Size, i: nat, j: nat)
    requires WellFormed(g, size) && i < size && j < size
    ensures EnergyW(g, size)(i, j) == if g[i][j].value then Energy(g, size, i, j) else 0
  {
  }

  /** Total energy: over all occupied cells, the sum of their occupied-neighbour counts. */
  ghost function GridEnergy(g: Grid, size: Size): int
  {
    GridSum(EnergyW(g, size), size, size)
  }

  /** Every occupied cell contributes between 0 and 6, so the total energy is at most six
      times the population; below 105 cells per side it therefore fits the 16-bit counter
      the engine keeps it in. */
  lemma GridEnergyBounds(g: Grid, size: Size)
    requires WellFormed(g, size)
    ensures 0 <= GridEnergy(g, size) <= 6 * Population(g, size)
    ensures size <= 104 ==> GridEnergy(g, size) < 0x1_0000
  {
    EnergyWBound(g, size);
    GridSumScaledBound(EnergyW(g, size), OccW(g), 6, size, size);
    if size <= 104 {
      PopulationBounds(g, size);
      SquareBound(size, 104);
      assert Population(g, size) <= 10816;
    }
  }

  lemma SquareBound(n: nat, m: nat)
    requires n <= m
    ensures n * n <= m * m
  {
    assert n * n <= m * n;
  }

  lemma EnergyWBound(g: Grid, size: Size)
    requires WellFormed(g, size)
    ensures forall i: nat, j: nat :: i < size && j < size ==> 0 <= EnergyW(g, size)(i, j) <= 6 * OccW(g)(i, j)
  {
    forall i: nat, j: nat | i < size && j < size
      ensures 0 <= EnergyW(g, size)(i, j) <= 6 * OccW(g)(i, j)
    {
      if g[i][j].value {
        assert EnergyW(g, size)(i, j) == Energy(g, size, i, j);
      }
    }
  }

  /** Rust's `%` on signed integers: the remainder truncated toward zero, which takes the
      sign of the dividend. */
  function TruncRem(a: int, b: int): (r: int)
    requires b > 0
    ensures -b < r < b
    ensures a >= 0 ==> 0 <= r && r == a % b
    ensures a < 0 ==> r <= 0
    ensures -b < a < b ==> r == a
  {
    SmallRemainder(if a >= 0 then a else -a, b);
    if a >= 0 then a % b else -((-a) % b)
  }

  lemma SmallRemainder(m: nat, b: int)
    requires b > 0
    ensures m < b ==> m % b == m
  {
    if m < b {
      assert m == 0 * b + m;
    }
  }

  /** The test the order computation applies to (x, y) for class k (0, 1, 2 for a, b, c),
      as written: a class is picked by the residue of x modulo 3, shifted on odd rows,
      using the truncating remainder of x - 1 and x - 2. */
  predicate InClass(k: nat, x: nat, y: nat)
    ensures InClass(k, x, y) ==> k < 3
  {
    if y % 2 == 0 then
      if k == 0 then x % 3 == 0
      else if k == 1 then TruncRem(x - 1, 3) == 0
      else if k == 2 then TruncRem(x - 2, 3) == 0
      else false
    else if (y - 1) % 2 == 0 then
      if k == 0 then TruncRem(x - 1, 3) == 0
      else if k == 1 then TruncRem(x - 2, 3) == 0
      else if k == 2 then x % 3 == 0
      else false
    else false
  }

  /** The sublattice colouring of the hexagonal grid: on even rows the residue of x, on
      odd rows the residue of x - 1. */
  function Sublattice(x: nat, y: nat): (k: nat)
    ensures k < 3
  {
    (x + 2 * (y % 2)) % 3
  }

  /** The class tests partition the cells: (x, y) passes the test of exactly one class,
      the one its sublattice colour names. */
  lemma ClassPartition(k: nat, x: nat, y: nat)
    ensures InClass(k, x, y) <==> k == Sublattice(x, y)
  {
    hide TruncRem;
    assert x >= 1 ==> TruncRem(x - 1, 3) == (x - 1) % 3;
    assert x >= 2 ==> TruncRem(x - 2, 3) == (x - 2) % 3;
    assert x == 0 ==> TruncRem(x - 1, 3) == -1 && TruncRem(x - 2, 3) == -2;
    assert x == 1 ==> TruncRem(x - 2, 3) == -1;
    if y % 2 == 1 {
      assert (y - 1) % 2 == 0;
    }
  }

  /** Weight 1 on the occupied cells of class k. */
  function ClassW(g: Grid, k: nat): (nat, nat) -> int
  {
    (i: nat, j: nat) => if i < |g| && j < |g[i]| && g[i][j].value && InClass(k, i, j) then 1 else 0
  }

  /** The number of occupied cells of class k. */
  ghost function ClassCount(g: Grid, size: Size, k: nat): int
  {
    GridSum(ClassW(g, k), size, size)
  }

  /** Every occupied cell is counted in exactly one of the three classes, so the class
      counts add up to the population. */
  lemma ClassCountsPartition(g: Grid, size: Size)
    ensures ClassCount(g, size, 0) >= 0 && ClassCount(g, size, 1) >= 0 && ClassCount(g, size, 2) >= 0
    ensures ClassCount(g, size, 0) + ClassCount(g, size, 1) + ClassCount(g, size, 2) == Population(g, size)
  {
    var w01 := (i: nat, j: nat) => ClassW(g, 0)(i, j) + ClassW(g, 1)(i, j);
    forall i: nat, j: nat | i < size && j < size
      ensures OccW(g)(i, j) == w01(i, j) + ClassW(g, 2)(i, j)
    {
      ClassPartition(0, i, j);
      ClassPartition(1, i, j);
      ClassPartition(2, i, j);
      var s := Sublattice(i, j);
      assert s == 0 || s == 1 || s == 2;
      assert w01(i, j) == ClassW(g, 0)(i, j) + ClassW(g, 1)(i, j);
      if i < |g| && j < |g[i]| && g[i][j].value {
        assert OccW(g)(i, j) == 1;
        assert ClassW(g, s)(i, j) == 1;
      } else {
        assert OccW(g)(i, j) == 0;
      }
    }
    GridSumAdd(OccW(g), w01, ClassW(g, 2), size, size);
    GridSumAdd(w01, ClassW(g, 0), ClassW(g, 1), size, size);
    GridSumScaledBound(ClassW(g, 0), ClassW(g, 0), 1, size, size);
    GridSumScaledBound(ClassW(g, 1), ClassW(g, 1), 1, size, size);
    GridSumScaledBound(ClassW(g, 2), ClassW(g, 2), 1, size, size);
  }

  /** Numerator of the single order parameter: the class counts weighted 1, 2 and 3. */
  ghost function OrderWeight(g: Grid, size: Size): int
  {
    ClassCount(g, size, 0) + 2 * ClassCount(g, size, 1) + 3 * ClassCount(g, size, 2)
  }

  /** The weighted count lies between the population and three times the population; it
      is at the low end exactly when every particle is on sublattice a and at the high end
      exactly when every particle is on sublattice c. */
  lemma OrderWeightBounds(g: Grid, size: Size)
    ensures Population(g, size) <= OrderWeight(g, size) <= 3 * Population(g, size)
    ensures OrderWeight(g, size) == Population(g, size) <==> ClassCount(g, size, 0) == Population(g, size)
    ensures OrderWeight(g, size) == 3 * Population(g, size) <==> ClassCount(g, size, 2) == Population(g, size)
  {
    ClassCountsPartition(g, size);
  }
}
