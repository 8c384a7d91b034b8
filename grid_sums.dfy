/** Double sums over the cells of a board, taken column by column (outer index x,
    inner index y), the order in which every sweep over the board visits its cells. */
module GridSums {

  /** w(x, 0) + ... + w(x, n - 1): the first n cells of column x. */
  function ColumnSum(w: (nat, nat) -> int, x: nat, n: nat): int
    decreases n
  {
    if n == 0 then 0 else ColumnSum(w, x, n - 1) + w(x, n - 1)
  }

  /** The sum of w(i, j) over the columns i < m and the cells j < n of each. */
  function GridSum(w: (nat, nat) -> int, m: nat, n: nat): int
    decreases m
  {
    if m == 0 then 0 else GridSum(w, m - 1, n) + ColumnSum(w, m - 1, n)
  }

  lemma {:induction false} ColumnSumPointwise(w1: (nat, nat) -> int, w2: (nat, nat) -> int, x: nat, n: nat)
    requires forall j: nat :: j < n ==> w1(x, j) == w2(x, j)
    ensures ColumnSum(w1, x, n) == ColumnSum(w2, x, n)
    decreases n
  {
    if n > 0 {
      ColumnSumPointwise(w1, w2, x, n - 1);
    }
  }

  /** Sums of two weightings that agree on the range are equal. */
  lemma {:induction false} GridSumPointwise(w1: (nat, nat) -> int, w2: (nat, nat) -> int, m: nat, n: nat)
    requires forall i: nat, j: nat :: i < m && j < n ==> w1(i, j) == w2(i, j)
    ensures GridSum(w1, m, n) == GridSum(w2, m, n)
    decreases m
  {
    if m > 0 {
      GridSumPointwise(w1, w2, m - 1, n);
      ColumnSumPointwise(w1, w2, m - 1, n);
    }
  }

  lemma {:induction false} ColumnSumUpdate(w1: (nat, nat) -> int, w2: (nat, nat) -> int, x: nat, n: nat, b: nat)
    requires b < n
    requires forall j: nat :: j < n && j != b ==> w1(x, j) == w2(x, j)
    ensures ColumnSum(w2, x, n) == ColumnSum(w1, x, n) - w1(x, b) + w2(x, b)
    decreases n
  {
    if n - 1 == b {
      ColumnSumPointwise(w1, w2, x, n - 1);
    } else {
      ColumnSumUpdate(w1, w2, x, n - 1, b);
    }
  }

  /** Changing the weight of a single cell (a, b) changes the sum by exactly that difference. */
  lemma {:induction false} GridSumUpdate(w1: (nat, nat) -> int, w2: (nat, nat) -> int, m: nat, n: nat, a: nat, b: nat)
    requires a < m && b < n
    requires forall i: nat, j: nat :: i < m && j < n && (i != a || j != b) ==> w1(i, j) == w2(i, j)
    ensures GridSum(w2, m, n) == GridSum(w1, m, n) - w1(a, b) + w2(a, b)
    decreases m
  {
    if m - 1 == a {
      GridSumPointwise(w1, w2, m - 1, n);
      ColumnSumUpdate(w1, w2, a, n, b);
    } else {
      GridSumUpdate(w1, w2, m - 1, n, a, b);
      ColumnSumPointwise(w1, w2, m - 1, n);
    }
  }

  lemma {:induction false} ColumnSumAdd(w: (nat, nat) -> int, w1: (nat, nat) -> int, w2: (nat, nat) -> int, x: nat, n: nat)
    requires forall j: nat :: j < n ==> w(x, j) == w1(x, j) + w2(x, j)
    ensures ColumnSum(w, x, n) == ColumnSum(w1, x, n) + ColumnSum(w2, x, n)
    decreases n
  {
    if n > 0 {
      ColumnSumAdd(w, w1, w2, x, n - 1);
    }
  }

  /** The sum of a pointwise sum of weightings is the sum of their sums. */
  lemma {:induction false} GridSumAdd(w: (nat, nat) -> int, w1: (nat, nat) -> int, w2: (nat, nat) -> int, m: nat, n: nat)
    requires forall i: nat, j: nat :: i < m && j < n ==> w(i, j) == w1(i, j) + w2(i, j)
    ensures GridSum(w, m, n) == GridSum(w1, m, n) + GridSum(w2, m, n)
    decreases m
  {
    if m > 0 {
      GridSumAdd(w, w1, w2, m - 1, n);
      ColumnSumAdd(w, w1, w2, m - 1, n);
    }
  }

  lemma {:induction false} ColumnSumScaledBound(w1: (nat, nat) -> int, w2: (nat, nat) -> int, c: nat, x: nat, n: nat)
    requires forall j: nat :: j < n ==> 0 <= w1(x, j) <= c * w2(x, j)
    ensures 0 <= ColumnSum(w1, x, n) <= c * ColumnSum(w2, x, n)
    decreases n
  {
    if n > 0 {
      ColumnSumScaledBound(w1, w2, c, x, n - 1);
      Distribute(c, ColumnSum(w2, x, n - 1), w2(x, n - 1));
    }
  }

  /** A weighting bounded by c times another has a sum bounded by c times the other's sum. */
  lemma {:induction false} GridSumScaledBound(w1: (nat, nat) -> int, w2: (nat, nat) -> int, c: nat, m: nat, n: nat)
    requires forall i: nat, j: nat :: i < m && j < n ==> 0 <= w1(i, j) <= c * w2(i, j)
    ensures 0 <= GridSum(w1, m, n) <= c * GridSum(w2, m, n)
    decreases m
  {
    if m > 0 {
      GridSumScaledBound(w1, w2, c, m - 1, n);
      ColumnSumScaledBound(w1, w2, c, m - 1, n);
      Distribute(c, GridSum(w2, m - 1, n), ColumnSum(w2, m - 1, n));
    }
  }

  lemma Distribute(c: int, a: int, b: int)
    ensures c * (a + b) == c * a + c * b
  {
  }

  lemma {:induction false} ColumnSumUnitBound(w: (nat, nat) -> int, x: nat, n: nat)
    requires forall j: nat :: j < n ==> 0 <= w(x, j) <= 1
    ensures 0 <= ColumnSum(w, x, n) <= n
    decreases n
  {
    if n > 0 {
      ColumnSumUnitBound(w, x, n - 1);
    }
  }

  /** A 0/1 weighting sums to at most the number of cells, m * n. */
  lemma {:induction false} GridSumUnitBound(w: (nat, nat) -> int, m: nat, n: nat)
    requires forall i: nat, j: nat :: i < m && j < n ==> 0 <= w(i, j) <= 1
    ensures 0 <= GridSum(w, m, n) <= m * n
    decreases m
  {
    if m > 0 {
      GridSumUnitBound(w, m - 1, n);
      ColumnSumUnitBound(w, m - 1, n);
      assert m * n == (m - 1) * n + n;
    }
  }
}
