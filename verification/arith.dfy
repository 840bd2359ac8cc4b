/** Small facts about natural-number multiplication and row-major
    addressing, used by the layout and hyperslab modules. */
module Arith {

  /** Multiplication by a natural number is monotone. */
  lemma MulMono(a: nat, b: nat, c: nat)
    requires a <= b
    ensures a * c <= b * c
  {
  }

  /** `q * m + r` with `r < m` determines `q` and `r`. */
  lemma MulAddUnique(q1: nat, r1: nat, q2: nat, r2: nat, m: nat)
    requires r1 < m && r2 < m
    requires q1 * m + r1 == q2 * m + r2
    ensures q1 == q2 && r1 == r2
  {
    if q1 < q2 {
      MulMono(q1 + 1, q2, m);
      assert false;
    } else if q2 < q1 {
      MulMono(q2 + 1, q1, m);
      assert false;
    }
  }

  /** The row-major address of cell `(a, b)` of an `rows x cols` block lies
      inside the block. */
  lemma RowMajorBound(a: nat, b: nat, rows: nat, cols: nat)
    requires a < rows && b < cols
    ensures a * cols + b < rows * cols
  {
    MulMono(a + 1, rows, cols);
  }

  /** Division and remainder recover the row and column of a row-major
      address. */
  lemma RowMajorDivMod(a: nat, b: nat, cols: nat)
    requires b < cols
    ensures (a * cols + b) / cols == a
    ensures (a * cols + b) % cols == b
  {
    var x := a * cols + b;
    MulAddUnique(x / cols, x % cols, a, b, cols);
  }

  /** Every address below `rows * cols` is the row-major address of a cell
      of the block. */
  lemma RowMajorSplit(x: nat, rows: nat, cols: nat)
    requires x < rows * cols
    ensures cols > 0
    ensures x / cols < rows && x % cols < cols
    ensures x == (x / cols) * cols + x % cols
  {
    if x / cols >= rows {
      MulMono(rows, x / cols, cols);
      assert false;
    }
  }

  /** An address below `rows * cols` as its row `q` and column `r`. */
  lemma DivModOf(x: nat, rows: nat, cols: nat) returns (q: nat, r: nat)
    requires x < rows * cols
    ensures q < rows && r < cols && x == q * cols + r
    ensures q == x / cols && r == x % cols
  {
    RowMajorSplit(x, rows, cols);
    q, r := x / cols, x % cols;
  }
}
