/** The layout engine shared by writer and reader: the shape of each table,
    the hyperslab (offset, count) that one part occupies, and the position
    of an entity field inside the part's packed buffer.

    Every table has a partition axis, holding `slab` consecutive lines per
    part, and an entity axis as wide as the largest part. Without transpose
    the partition axis is the row axis; with transpose it is the column
    axis. */
module Layout {
  import opened Arith

  /** A pair of table coordinates: a shape, a count or an offset. */
  datatype Extent = Extent(rows: nat, cols: nat)

  /** The stats table holds fifteen counters per part. */
  const StatsFields: nat := 15

  function PartitionAxis(e: Extent, transpose: bool): nat
  {
    if !transpose then e.rows else e.cols
  }

  function EntityAxis(e: Extent, transpose: bool): nat
  {
    if !transpose then e.cols else e.rows
  }

  /** Shape of a table of `numParts` slabs of `slab` lines, each line
      `width` cells long. The slab is one stats line, three point lines
      (marker, id, flag; or x, y, z), five edge lines, `7 + F` face lines or
      `3 + E` element lines. */
  function TableDims(numParts: nat, slab: nat, width: nat, transpose: bool): Extent
  {
    if !transpose then Extent(slab * numParts, width) else Extent(width, slab * numParts)
  }

  /** The hyperslab count, derived from the table's shape as both the writer
      (from the shape it creates) and the reader (from the shape it finds)
      do. */
  function SlabCount(dims: Extent, slab: nat, transpose: bool): Extent
  {
    if !transpose then Extent(slab, dims.cols) else Extent(dims.rows, slab)
  }

  /** The hyperslab offset of part `i`: `i` times the count along the
      partition axis, zero along the entity axis. */
  function SlabOffset(i: nat, count: Extent, transpose: bool): Extent
  {
    if !transpose then Extent(i * count.rows, 0) else Extent(0, i * count.cols)
  }

  /** A slab's count covers `slab` lines of the table's full entity
      axis. */
  lemma SlabArea(dims: Extent, slab: nat, transpose: bool)
    ensures var count := SlabCount(dims, slab, transpose);
            count.rows * count.cols == slab * EntityAxis(dims, transpose)
  {
  }

  predicate InBlock(offset: Extent, count: Extent, row: nat, col: nat)
  {
    offset.rows <= row < offset.rows + count.rows && offset.cols <= col < offset.cols + count.cols
  }

  predicate BlockInside(offset: Extent, count: Extent, dims: Extent)
  {
    offset.rows + count.rows <= dims.rows && offset.cols + count.cols <= dims.cols
  }

  /** Part `i`'s hyperslab in a table of `numParts` slabs has extent
      `(slab, width)` (`(width, slab)` under transpose), starts at `i * slab`
      on the partition axis and at 0 on the entity axis, and lies inside the
      table exactly when `i < numParts`. */
  lemma SlabAddressing(numParts: nat, slab: nat, width: nat, transpose: bool, i: nat)
    requires slab > 0
    ensures var count := SlabCount(TableDims(numParts, slab, width, transpose), slab, transpose);
            && count == (if !transpose then Extent(slab, width) else Extent(width, slab))
            && PartitionAxis(SlabOffset(i, count, transpose), transpose) == i * slab
            && EntityAxis(SlabOffset(i, count, transpose), transpose) == 0
            && (var dims := TableDims(numParts, slab, width, transpose);
                BlockInside(SlabOffset(i, count, transpose), count, dims) <==> i < numParts)
  {
    if i < numParts {
      MulMono(i + 1, numParts, slab);
    } else {
      MulMono(numParts, i, slab);
    }
  }

  /** All `numParts` slabs of a table lie inside it. */
  lemma AllSlabsInside(numParts: nat, slab: nat, width: nat, transpose: bool)
    requires slab > 0
    ensures var dims := TableDims(numParts, slab, width, transpose);
            var count := SlabCount(dims, slab, transpose);
            forall i :: 0 <= i < numParts ==> BlockInside(SlabOffset(i, count, transpose), count, dims)
  {
    forall i | 0 <= i < numParts
      ensures var dims := TableDims(numParts, slab, width, transpose);
              var count := SlabCount(dims, slab, transpose);
              BlockInside(SlabOffset(i, count, transpose), count, dims)
    {
      SlabAddressing(numParts, slab, width, transpose, i);
    }
  }

  /** The hyperslabs of two different parts share no cell. */
  lemma SlabsDisjoint(dims: Extent, slab: nat, transpose: bool, i1: nat, i2: nat)
    requires i1 != i2
    ensures var count := SlabCount(dims, slab, transpose);
            forall row: nat, col: nat ::
              !(InBlock(SlabOffset(i1, count, transpose), count, row, col) &&
                InBlock(SlabOffset(i2, count, transpose), count, row, col))
  {
    var count := SlabCount(dims, slab, transpose);
    var lo, hi := if i1 < i2 then i1 else i2, if i1 < i2 then i2 else i1;
    SlabsApart(lo, hi, slab);
    assert PartitionAxis(SlabOffset(i1, count, transpose), transpose) == i1 * slab;
    assert PartitionAxis(SlabOffset(i2, count, transpose), transpose) == i2 * slab;
    assert PartitionAxis(count, transpose) == slab;
  }

  /** The slab of a lower part ends where a higher part's slab may begin at
      the earliest. */
  lemma SlabsApart(lo: nat, hi: nat, slab: nat)
    requires lo < hi
    ensures lo * slab + slab <= hi * slab
  {
    MulMono(lo + 1, hi, slab);
    assert (lo + 1) * slab == lo * slab + slab;
  }

  /** The part whose slab holds a table cell. */
  function OwnerOf(row: nat, col: nat, slab: nat, transpose: bool): nat
    requires slab > 0
  {
    if !transpose then row / slab else col / slab
  }

  /** The slabs of all parts tile the table: every cell of a table of
      `numParts` slabs lies in the slab of a part `i < numParts`, namely
      `OwnerOf` of the cell (unique by `SlabsDisjoint`). */
  lemma SlabsCoverTable(numParts: nat, slab: nat, width: nat, transpose: bool, row: nat, col: nat)
    requires slab > 0
    requires var dims := TableDims(numParts, slab, width, transpose);
             row < dims.rows && col < dims.cols
    ensures var count := SlabCount(TableDims(numParts, slab, width, transpose), slab, transpose);
            var i := OwnerOf(row, col, slab, transpose);
            i < numParts && InBlock(SlabOffset(i, count, transpose), count, row, col)
  {
    var line := if !transpose then row else col;
    assert line < numParts * slab;
    RowMajorSplit(line, numParts, slab);
  }

  /** Distance between consecutive fields of one entity in a packed buffer:
      the width without transpose, the slab size with it. */
  function Stride(slab: nat, width: nat, transpose: bool): nat
  {
    if !transpose then width else slab
  }

  /** Position of field `k` of entity `j` in a part's packed buffer of
      `slab * width` cells: `k * stride + j` without transpose,
      `stride * j + k` with it. */
  function PackIndex(j: nat, k: nat, slab: nat, width: nat, transpose: bool): (idx: nat)
    requires j < width && k < slab
    ensures idx < slab * width
  {
    var stride := Stride(slab, width, transpose);
    if !transpose then
      RowMajorBound(k, j, slab, width);
      k * stride + j
    else
      RowMajorBound(j, k, width, slab);
      stride * j + k
  }

  /** The (entity, field) pair a buffer position belongs to. */
  datatype Slot = Slot(entity: nat, field: nat)

  function SlotOf(idx: nat, slab: nat, width: nat, transpose: bool): (s: Slot)
    requires idx < slab * width
    ensures s.entity < width && s.field < slab
  {
    if !transpose then
      RowMajorSplit(idx, slab, width);
      Slot(idx % width, idx / width)
    else
      RowMajorSplit(idx, width, slab);
      Slot(idx / slab, idx % slab)
  }

  /** Every buffer position is the packed index of the slot it belongs to. */
  lemma PackIndexOfSlot(idx: nat, slab: nat, width: nat, transpose: bool)
    requires idx < slab * width
    ensures var s := SlotOf(idx, slab, width, transpose);
            PackIndex(s.entity, s.field, slab, width, transpose) == idx
  {
    if !transpose {
      var q, r := DivModOf(idx, slab, width);
      assert SlotOf(idx, slab, width, transpose) == Slot(r, q);
      assert PackIndex(r, q, slab, width, transpose) == q * width + r;
    } else {
      var q, r := DivModOf(idx, width, slab);
      assert SlotOf(idx, slab, width, transpose) == Slot(q, r);
      assert PackIndex(q, r, slab, width, transpose) == slab * q + r;
    }
  }

  /** `PackIndex` is one-to-one: `SlotOf` undoes it. */
  lemma SlotOfPackIndex(j: nat, k: nat, slab: nat, width: nat, transpose: bool)
    requires j < width && k < slab
    ensures SlotOf(PackIndex(j, k, slab, width, transpose), slab, width, transpose) == Slot(j, k)
  {
    var idx := PackIndex(j, k, slab, width, transpose);
    if !transpose {
      assert idx == k * width + j;
      RowMajorDivMod(k, j, width);
      assert SlotOf(idx, slab, width, transpose) == Slot(idx % width, idx / width);
    } else {
      assert idx == j * slab + k;
      RowMajorDivMod(j, k, slab);
      assert SlotOf(idx, slab, width, transpose) == Slot(idx / slab, idx % slab);
    }
  }

  /** `PackIndex` is the row-major address, in a memory block shaped like
      the part's hyperslab count, of the cell for field `k` of entity `j`:
      row `k`, column `j` without transpose; row `j`, column `k` with it. */
  lemma PackIndexIsRowMajor(j: nat, k: nat, slab: nat, width: nat, transpose: bool)
    requires j < width && k < slab
    ensures var count := if !transpose then Extent(slab, width) else Extent(width, slab);
            var cell := if !transpose then Extent(k, j) else Extent(j, k);
            cell.rows < count.rows && cell.cols < count.cols &&
            PackIndex(j, k, slab, width, transpose) == cell.rows * count.cols + cell.cols
  {
  }

  /** The reader's transposed face loop reads the marker at
      `(7 + F) * j + F` rather than `stride * j + F`; the two agree because
      the transposed stride of the face table is `7 + F`. */
  function FaceMarkerIndex(j: nat, faceNodes: nat, width: nat, transpose: bool): nat
  {
    if !transpose then faceNodes * Stride(7 + faceNodes, width, transpose) + j
    else (7 + faceNodes) * j + faceNodes
  }

  lemma FaceMarkerIndexAgrees(j: nat, faceNodes: nat, width: nat, transpose: bool)
    requires j < width
    ensures FaceMarkerIndex(j, faceNodes, width, transpose)
            == PackIndex(j, faceNodes, 7 + faceNodes, width, transpose)
  {
  }
}
