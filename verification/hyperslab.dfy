/** Two-dimensional tables of the container and the hyperslab transfers
    `writeData` / `readData`: copy a rectangular block, given by an offset
    and a count, between a table and a flat row-major memory buffer shaped
    like the count. */
module Hyperslab {
  import opened Arith
  import opened Layout

  datatype Table<T> = Table(rows: nat, cols: nat, cells: seq<seq<T>>)
  {
    predicate Valid()
    {
      |cells| == rows && forall r :: 0 <= r < rows ==> |cells[r]| == cols
    }

    function Dims(): Extent
    {
      Extent(rows, cols)
    }
  }

  /** Row-major address of cell `(a, b)` in a memory block of `count`. */
  function Address(a: nat, b: nat, count: Extent): (x: nat)
    requires a < count.rows && b < count.cols
    ensures x < count.rows * count.cols
  {
    RowMajorBound(a, b, count.rows, count.cols);
    a * count.cols + b
  }

  /** A freshly created table: every cell holds the fill value. */
  function NewTable<T>(dims: Extent, fill: T): (t: Table<T>)
    ensures t.Valid() && t.Dims() == dims
    ensures forall r, c :: 0 <= r < dims.rows && 0 <= c < dims.cols ==> t.cells[r][c] == fill
  {
    Table(dims.rows, dims.cols, seq(dims.rows, _ => seq(dims.cols, _ => fill)))
  }

  /** The cells of the block at `(offset, count)`, flattened row-major. */
  function Block<T>(t: Table<T>, offset: Extent, count: Extent): (buf: seq<T>)
    requires t.Valid() && BlockInside(offset, count, t.Dims())
    ensures |buf| == count.rows * count.cols
  {
    seq(count.rows * count.cols, x requires 0 <= x < count.rows * count.cols =>
      RowMajorSplit(x, count.rows, count.cols);
      t.cells[offset.rows + x / count.cols][offset.cols + x % count.cols])
  }

  /** Memory cell `(a, b)` of a block holds table cell
      `(offset.rows + a, offset.cols + b)`. */
  lemma BlockCell<T>(t: Table<T>, offset: Extent, count: Extent, a: nat, b: nat)
    requires t.Valid() && BlockInside(offset, count, t.Dims())
    requires a < count.rows && b < count.cols
    ensures Block(t, offset, count)[Address(a, b, count)] == t.cells[offset.rows + a][offset.cols + b]
  {
    RowMajorDivMod(a, b, count.cols);
  }

  /** `writeData`: the block at `(offset, count)` receives the buffer, read
      row-major; every other cell keeps its value. */
  function WriteData<T>(t: Table<T>, offset: Extent, count: Extent, buf: seq<T>): (t': Table<T>)
    requires t.Valid() && BlockInside(offset, count, t.Dims())
    requires |buf| == count.rows * count.cols
    ensures t'.Valid() && t'.Dims() == t.Dims()
    ensures forall r, c :: 0 <= r < t.rows && 0 <= c < t.cols && !InBlock(offset, count, r, c) ==>
              t'.cells[r][c] == t.cells[r][c]
  {
    Table(t.rows, t.cols,
      seq(t.rows, r requires 0 <= r < t.rows =>
        seq(t.cols, c requires 0 <= c < t.cols =>
          if InBlock(offset, count, r, c)
          then buf[Address(r - offset.rows, c - offset.cols, count)]
          else t.cells[r][c])))
  }

  /** Memory cell `(a, b)` of the written buffer lands in table cell
      `(offset.rows + a, offset.cols + b)`. */
  lemma WrittenCell<T>(t: Table<T>, offset: Extent, count: Extent, buf: seq<T>, a: nat, b: nat)
    requires t.Valid() && BlockInside(offset, count, t.Dims())
    requires |buf| == count.rows * count.cols
    requires a < count.rows && b < count.cols
    ensures WriteData(t, offset, count, buf).cells[offset.rows + a][offset.cols + b] == buf[Address(a, b, count)]
  {
  }

  /** `readData`: a block inside the table is copied into the buffer. A
      selection reaching outside the table is rejected by the I/O library;
      the caller ignores the status, so the buffer keeps what it held. */
  function ReadData<T>(t: Table<T>, offset: Extent, count: Extent, buf: seq<T>): (r: seq<T>)
    requires t.Valid() && |buf| == count.rows * count.cols
    ensures |r| == |buf|
    ensures !BlockInside(offset, count, t.Dims()) ==> r == buf
  {
    if BlockInside(offset, count, t.Dims()) then Block(t, offset, count) else buf
  }

  /** Memory address `x` of a block is the address of its own row and
      column. */
  lemma AddressSplit(x: nat, count: Extent) returns (a: nat, b: nat)
    requires x < count.rows * count.cols
    ensures a < count.rows && b < count.cols && Address(a, b, count) == x
    ensures a == x / count.cols && b == x % count.cols
  {
    a, b := DivModOf(x, count.rows, count.cols);
  }

  /** Reading back the block just written returns the written buffer,
      whatever the buffer it is read into held. */
  lemma ReadAfterWrite<T>(t: Table<T>, offset: Extent, count: Extent, buf: seq<T>, scratch: seq<T>)
    requires t.Valid() && BlockInside(offset, count, t.Dims())
    requires |buf| == count.rows * count.cols && |scratch| == |buf|
    ensures ReadData(WriteData(t, offset, count, buf), offset, count, scratch) == buf
  {
    var t' := WriteData(t, offset, count, buf);
    var r := Block(t', offset, count);
    forall x | 0 <= x < |buf|
      ensures r[x] == buf[x]
    {
      var a, b := AddressSplit(x, count);
      assert r[x] == t'.cells[offset.rows + a][offset.cols + b];
      WrittenCell(t, offset, count, buf, a, b);
    }
  }

  /** Writing one block leaves a disjoint block's contents unchanged. */
  lemma ReadAfterDisjointWrite<T>(t: Table<T>, written: Extent, read: Extent, count: Extent,
                                  buf: seq<T>, scratch: seq<T>)
    requires t.Valid()
    requires BlockInside(written, count, t.Dims()) && BlockInside(read, count, t.Dims())
    requires |buf| == count.rows * count.cols && |scratch| == |buf|
    requires forall row: nat, col: nat :: !(InBlock(written, count, row, col) && InBlock(read, count, row, col))
    ensures ReadData(WriteData(t, written, count, buf), read, count, scratch) == ReadData(t, read, count, scratch)
  {
    var t' := WriteData(t, written, count, buf);
    var r' := Block(t', read, count);
    var r := Block(t, read, count);
    forall x | 0 <= x < |buf|
      ensures r'[x] == r[x]
    {
      var a, b := AddressSplit(x, count);
      assert r'[x] == t'.cells[read.rows + a][read.cols + b];
      assert r[x] == t.cells[read.rows + a][read.cols + b];
      assert !InBlock(written, count, read.rows + a, read.cols + b);
    }
  }

  /** Predicate shared by the slab writers: every buffer fits the slab count
      and the first `|bufs|` slabs lie inside the table. */
  predicate SlabsFit<T>(t: Table<T>, bufs: seq<seq<T>>, slab: nat, transpose: bool)
  {
    var count := SlabCount(t.Dims(), slab, transpose);
    forall i :: 0 <= i < |bufs| ==>
      BlockInside(SlabOffset(i, count, transpose), count, t.Dims()) &&
      |bufs[i]| == count.rows * count.cols
  }

  /** The writer's per-part loop: part `i`'s buffer goes to part `i`'s slab,
      in increasing `i`. */
  function WriteSlabs<T>(t: Table<T>, bufs: seq<seq<T>>, slab: nat, transpose: bool): (t': Table<T>)
    requires t.Valid() && SlabsFit(t, bufs, slab, transpose)
    ensures t'.Valid() && t'.Dims() == t.Dims()
    decreases |bufs|
  {
    if |bufs| == 0 then t
    else
      var n := |bufs| - 1;
      var count := SlabCount(t.Dims(), slab, transpose);
      var before := WriteSlabs(t, bufs[..n], slab, transpose);
      WriteData(before, SlabOffset(n, count, transpose), count, bufs[n])
  }

  /** After all slabs are written, reading part `r`'s slab returns exactly
      the buffer written for part `r`: later parts do not overwrite it. */
  lemma {:induction false} SlabReadBack<T>(t: Table<T>, bufs: seq<seq<T>>, slab: nat, transpose: bool,
                                           r: nat, scratch: seq<T>)
    requires t.Valid() && SlabsFit(t, bufs, slab, transpose)
    requires r < |bufs|
    requires var count := SlabCount(t.Dims(), slab, transpose);
             |scratch| == count.rows * count.cols
    ensures var count := SlabCount(t.Dims(), slab, transpose);
            ReadData(WriteSlabs(t, bufs, slab, transpose), SlabOffset(r, count, transpose), count, scratch)
            == bufs[r]
    decreases |bufs|
  {
    var n := |bufs| - 1;
    var count := SlabCount(t.Dims(), slab, transpose);
    var before := WriteSlabs(t, bufs[..n], slab, transpose);
    assert SlabsFit(t, bufs[..n], slab, transpose) by {
      forall i | 0 <= i < n
        ensures bufs[..n][i] == bufs[i]
      {
      }
    }
    if r == n {
      ReadAfterWrite(before, SlabOffset(n, count, transpose), count, bufs[n], scratch);
    } else {
      SlabsDisjoint(t.Dims(), slab, transpose, n, r);
      ReadAfterDisjointWrite(before, SlabOffset(n, count, transpose), SlabOffset(r, count, transpose),
                             count, bufs[n], scratch);
      SlabReadBack(t, bufs[..n], slab, transpose, r, scratch);
      assert bufs[..n][r] == bufs[r];
    }
  }
}
