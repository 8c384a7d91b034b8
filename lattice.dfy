/** Cells and board contents as values: the grid of Hex records, indexed grid[x][y],
    and the local energy of a cell. */
module Lattice {
  import opened Topology

  /** One lattice site: its coordinates and whether a particle occupies it. */
  datatype Hex = Hex(x: int, y: int, value: bool)

  /** Board contents, column by column: g[x][y] is the cell at (x, y). */
  type Grid = seq<seq<Hex>>

  /** A fresh cell: at the given coordinates and empty. */
  function NewHex(x: int, y: int): (h: Hex)
    ensures h.x == x && h.y == y && !h.value
  {
    Hex(x, y, false)
  }

  /** size columns of size cells each, and every cell records its own position. */
  ghost predicate WellFormed(g: Grid, size: Size)
  {
    |g| == size &&
    (forall i :: 0 <= i < size ==> |g[i]| == size) &&
    (forall i, j {:trigger g[i][j].x} :: 0 <= i < size && 0 <= j < size ==> g[i][j].x == i) &&
    (forall i, j {:trigger g[i][j].y} :: 0 <= i < size && 0 <= j < size ==> g[i][j].y == j)
  }

  /** The board a new engine starts from. */
  function EmptyGrid(size: Size): (g: Grid)
    ensures WellFormed(g, size)
    ensures forall i, j :: 0 <= i < size && 0 <= j < size ==> !g[i][j].value
  {
    seq(size, i requires 0 <= i < size => seq(size, j requires 0 <= j < size => NewHex(i, j)))
  }

  /** The board with the occupancy of (x, y) set to v; nothing else changes, and in
      particular no coordinate does. */
  function SetValue(g: Grid, size: Size, x: nat, y: nat, v: bool): (r: Grid)
    requires WellFormed(g, size) && x < size && y < size
    ensures WellFormed(r, size)
    ensures r[x][y].value == v
    ensures forall i, j :: 0 <= i < size && 0 <= j < size && (i != x || j != y) ==> r[i][j] == g[i][j]
  {
    g[x := g[x][y := g[x][y].(value := v)]]
  }

  /** The six neighbouring cells of (x, y), read from the board in direction-table order. */
  ghost function Neighbours(g: Grid, size: Size, x: int, y: int): (r: seq<Hex>)
    requires WellFormed(g, size)
    ensures |r| == 6
    ensures forall k :: 0 <= k < 6 ==>
      r[k] == g[Target(size, x, y, k).x][Target(size, x, y, k).y] &&
      r[k].x == Target(size, x, y, k).x && r[k].y == Target(size, x, y, k).y
  {
    seq(6, k requires 0 <= k < 6 => g[Target(size, x, y, k).x][Target(size, x, y, k).y])
  }

  /** The number of occupied cells in a list of cells. */
  function OccupiedCount(cells: seq<Hex>): (n: nat)
    ensures n <= |cells|
  {
    if cells == [] then 0
    else OccupiedCount(cells[..|cells| - 1]) + (if cells[|cells| - 1].value then 1 else 0)
  }

  /** The count is 0 exactly when no cell in the list is occupied. */
  lemma {:induction false} OccupiedCountZero(cells: seq<Hex>)
    ensures OccupiedCount(cells) == 0 <==> forall k :: 0 <= k < |cells| ==> !cells[k].value
    decreases |cells|
  {
    if cells != [] {
      var init := cells[..|cells| - 1];
      OccupiedCountZero(init);
      assert forall k :: 0 <= k < |init| ==> init[k] == cells[k];
    }
  }

  /** Local energy of (x, y): how many of its six neighbours are occupied. */
  ghost function Energy(g: Grid, size: Size, x: int, y: int): (e: nat)
    requires WellFormed(g, size)
    ensures e <= 6
  {
    OccupiedCount(Neighbours(g, size, x, y))
  }

  /** A cell has energy 0 exactly when all six of its neighbours are empty. */
  lemma EnergyZero(g: Grid, size: Size, x: int, y: int)
    requires WellFormed(g, size)
    ensures Energy(g, size, x, y) == 0 <==>
            forall k :: 0 <= k < 6 ==> !g[Target(size, x, y, k).x][Target(size, x, y, k).y].value
  {
    var n := Neighbours(g, size, x, y);
    OccupiedCountZero(n);
    assert forall k :: 0 <= k < 6 ==> n[k] == g[Target(size, x, y, k).x][Target(size, x, y, k).y];
  }
}
