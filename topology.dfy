/** The periodic offset-hexagonal topology of the board: the two wrap functions
    and the parity-dependent direction tables that give each cell its six neighbours. */
module Topology {

  /** Side length of the square board. Coordinates are 16-bit and the cell count
      size * size is computed in 16 bits, so a side above 255 would overflow; a
      side below 2 makes the wraps degenerate. */
  type Size = s: nat | 2 <= s <= 255 witness 2

  /** An index into a six-entry direction table. */
  type Direction = k: nat | k < 6

  datatype Coord = Coord(x: nat, y: nat)

  /** Horizontal wrap: one step past either edge comes back on the other side; an index
      on the board is left alone. */
  function WrapX(size: Size, index: int): (r: nat)
    ensures r < size
    ensures 0 <= index < size ==> r == index
    ensures index < 0 ==> r == size - 1
    ensures index >= size ==> r == 0
  {
    if index < 0 then size - 1
    else if index >= size then 0
    else index
  }

  /** Vertical wrap. Row size - 1 counts as past the top edge and wraps to row 0; one step
      below row 0 lands on row size - 1, the only way that row is ever reached. */
  function WrapY(size: Size, index: int): (r: nat)
    ensures r < size
    ensures 0 <= index < size - 1 ==> r == index
    ensures index >= size - 1 ==> r == 0
    ensures r == size - 1 <==> index < 0
  {
    if index < 0 then size - 1
    else if index >= size - 1 then 0
    else index
  }

  /** Euclidean remainder modulo m on the inputs a wrap can see. */
  lemma ModuloNearRange(m: nat)
    requires m > 0
    ensures -1 % m == m - 1 && m % m == 0
    ensures forall i: int :: 0 <= i < m ==> i % m == i
  {
    assert -1 == -1 * m + (m - 1);
    assert m == 1 * m + 0;
  }

  /** On the indices one step from the board, the horizontal wrap is reduction modulo size. */
  lemma WrapXModulo(size: Size, index: int)
    requires -1 <= index <= size
    ensures WrapX(size, index) == index % size
  {
    ModuloNearRange(size);
  }

  /** On [0, size) the vertical wrap is reduction modulo size - 1, not modulo size; below
      row 0 it differs from both. */
  lemma WrapYModulo(size: Size, index: int)
    requires 0 <= index < size
    ensures WrapY(size, index) == index % (size - 1)
  {
    ModuloNearRange(size - 1);
  }

  /** Direction table of even rows. */
  const EvenRowOffsets: seq<(int, int)> := [(1, 0), (-1, 0), (0, 1), (0, -1), (-1, 1), (-1, -1)]

  /** Direction table of odd rows. */
  const OddRowOffsets: seq<(int, int)> := [(1, 0), (-1, 0), (0, 1), (0, -1), (1, 1), (1, -1)]

  function Offsets(y: int): seq<(int, int)>
  {
    if y % 2 == 0 then EvenRowOffsets else OddRowOffsets
  }

  /** The neighbour of (x, y) in direction d: the entry d of the row's direction table
      added to (x, y), each coordinate wrapped on its own. */
  function Target(size: Size, x: int, y: int, d: Direction): (c: Coord)
    ensures c.x < size && c.y < size
  {
    var o := Offsets(y)[d];
    Coord(WrapX(size, x + o.0), WrapY(size, y + o.1))
  }

  /** The direction that points back: both tables list their directions in opposite pairs. */
  function Opposite(d: Direction): Direction
  {
    if d % 2 == 0 then d + 1 else d - 1
  }

  /** Away from the wrapped rows the neighbour relation is that of a hexagonal lattice:
      it is symmetric, the way back being the opposite entry of the neighbour's table.
      Columns wrap with period size, so any column qualifies. */
  lemma NeighbourSymmetric(size: Size, x: nat, y: nat, d: Direction)
    requires x < size && 1 <= y < size - 2
    ensures Target(size, Target(size, x, y, d).x, Target(size, x, y, d).y, Opposite(d)) == Coord(x, y)
  {
    var c := Target(size, x, y, d);
    assert (y + 1) % 2 != y % 2 && (y - 1) % 2 != y % 2;
    if d == 0 || d == 1 {
      assert c.y == y;
    } else if d == 2 || d == 3 {
      assert c.x == x;
    } else {
      assert c.y == y + 1 || c.y == y - 1;
    }
  }

  /** The wrap of rows: no neighbour of a cell in the last row lies in the last row (its
      two side neighbours are in row 0), and a cell of the last row is a neighbour only
      of cells in row 0. */
  lemma LastRowWrap(size: Size, x: nat, y: nat, d: Direction)
    requires x < size && y < size
    ensures y == size - 1 ==> Target(size, x, y, d).y != size - 1
    ensures y == size - 1 && d < 2 ==> Target(size, x, y, d).y == 0
    ensures Target(size, x, y, d).y == size - 1 ==> y == 0
  {
    var dy := Offsets(y)[d].1;
    assert -1 <= dy <= 1;
  }

  /** Two consequences of the row wrap. From a cell of the last row, the step up and one
      side step reach the same cell of row 0 (direction 4 coincides with direction 1 on
      even rows and with direction 0 on odd rows), so that cell is counted twice among the
      six neighbours. On a board of side 2, the step up from row 0 returns to the cell
      itself. */
  lemma LastRowDuplicates(size: Size, x: nat)
    requires x < size
    ensures var y := size - 1;
            Target(size, x, y, 4) == Target(size, x, y, if y % 2 == 0 then 1 else 0) &&
            Target(size, x, y, 4).y == 0
    ensures size == 2 ==> Target(size, x, 0, 2) == Coord(x, 0)
  {
    var y := size - 1;
    assert WrapY(size, y + 1) == 0 && WrapY(size, y) == 0;
  }
}
