/** The reader: rank `rank` rebuilds its own mesh part from the container.
    Each pass derives the hyperslab count from the shape of the table it
    finds, reads the slab at `rank` into the shared scratch buffer (resized
    first, keeping its old prefix) and unpacks as many entities as the stats
    pass announced. */
module Reader {
  import opened Mesh
  import opened Results
  import opened Layout
  import opened Hyperslab
  import opened Packing
  import opened Codec
  import opened Containers

  /** The buffer a read pass fills: the scratch buffer resized to the area of
      the count derived from `dims`, then overwritten by the slab at `rank`
      of `table` when that slab lies inside the table. */
  function SlabBuffer<T>(table: Table<T>, dims: Extent, rank: nat, slab: nat, transpose: bool,
                         scratch: seq<T>, fill: T): (buf: seq<T>)
    requires table.Valid()
    ensures |buf| == slab * EntityAxis(dims, transpose)
    ensures var count := SlabCount(dims, slab, transpose);
            var offset := SlabOffset(rank, count, transpose);
            && (BlockInside(offset, count, table.Dims()) ==> buf == Block(table, offset, count))
            && (!BlockInside(offset, count, table.Dims()) ==>
                  buf == Resize(scratch, slab * EntityAxis(dims, transpose), fill))
  {
    var count := SlabCount(dims, slab, transpose);
    SlabArea(dims, slab, transpose);
    ReadData(table, SlabOffset(rank, count, transpose), count,
             Resize(scratch, count.rows * count.cols, fill))
  }

  /** `readStats`: the part's counts and counters. The whole stats line is
      read, so it must hold at least the fifteen counters. Returns the
      scratch buffer as the pass leaves it. */
  function ReadStatsPass(stats: Table<u32>, rank: nat, transpose: bool, scratch: seq<u32>)
    : (r: Result<(PartStats, seq<u32>)>)
    requires stats.Valid()
    ensures r.Err? <==> EntityAxis(stats.Dims(), transpose) < StatsFields
    ensures r.Err? ==> r.error == StatsTooShort
    ensures r.Ok? ==> var buf := SlabBuffer(stats, stats.Dims(), rank, 1, transpose, scratch, 0);
                      r.value == (DecodeStats(buf), buf)
  {
    var buf := SlabBuffer(stats, stats.Dims(), rank, 1, transpose, scratch, 0);
    if |buf| < StatsFields then Err(StatsTooShort) else Ok((DecodeStats(buf), buf))
  }

  /** `readPoints`: both point tables are read with the count and offset
      derived from the integer table's shape; the coordinate buffer starts
      empty. */
  function ReadPointsPass(c: Container, rank: nat, numPoints: nat, transpose: bool, scratch: seq<u32>)
    : (r: Result<(seq<Point>, seq<u32>)>)
    requires c.Valid()
    ensures var width := EntityAxis(c.pointIds.Dims(), transpose);
            r.Err? <==> numPoints > width
    ensures r.Err? ==> r.error == CountExceedsTable
    ensures r.Ok? ==> |r.value.0| == numPoints
    ensures r.Ok? ==> var width := EntityAxis(c.pointIds.Dims(), transpose);
                      var ids := SlabBuffer(c.pointIds, c.pointIds.Dims(), rank, 3, transpose, scratch, 0);
                      var coords := SlabBuffer(c.pointCoords, c.pointIds.Dims(), rank, 3, transpose, [], Zero);
                      && r.value.1 == ids
                      && forall j :: 0 <= j < numPoints ==>
                           PointIdRecord(r.value.0[j]) == FieldsAt(ids, j, 3, width, transpose) &&
                           PointCoordRecord(r.value.0[j]) == FieldsAt(coords, j, 3, width, transpose)
  {
    var dims := c.pointIds.Dims();
    var width := EntityAxis(dims, transpose);
    var ids := SlabBuffer(c.pointIds, dims, rank, 3, transpose, scratch, 0);
    var coords := SlabBuffer(c.pointCoords, dims, rank, 3, transpose, [], Zero);
    if numPoints > width then Err(CountExceedsTable)
    else
      Ok((DecodePoints(Unpack(ids, numPoints, 3, width, transpose),
                       Unpack(coords, numPoints, 3, width, transpose)), ids))
  }

  /** `readEdges`: each edge's end points must be points of the part. */
  function ReadEdgesPass(edges: Table<u32>, rank: nat, numEdges: nat, numPoints: nat, transpose: bool,
                         scratch: seq<u32>): (r: Result<(seq<Edge>, seq<u32>)>)
    requires edges.Valid()
    ensures var width := EntityAxis(edges.Dims(), transpose);
            numEdges > width ==> r == Err(CountExceedsTable)
    ensures r.Err? ==> r.error in {CountExceedsTable, DanglingPointRef}
    ensures r.Ok? ==> |r.value.0| == numEdges
    ensures r.Ok? ==> forall j :: 0 <= j < numEdges ==>
                        r.value.0[j].first < numPoints && r.value.0[j].second < numPoints
    ensures r.Ok? ==> var width := EntityAxis(edges.Dims(), transpose);
                      var buf := SlabBuffer(edges, edges.Dims(), rank, 5, transpose, scratch, 0);
                      && r.value.1 == buf
                      && forall j :: 0 <= j < numEdges ==>
                           EdgeRecord(r.value.0[j]) == FieldsAt(buf, j, 5, width, transpose)
  {
    var width := EntityAxis(edges.Dims(), transpose);
    var buf := SlabBuffer(edges, edges.Dims(), rank, 5, transpose, scratch, 0);
    if numEdges > width then Err(CountExceedsTable)
    else
      var es :- DecodeEdges(Unpack(buf, numEdges, 5, width, transpose), numPoints);
      Ok((es, buf))
  }

  /** Where the face reader looks for field `k` of face `j`: the packed
      index, except that the marker is read at `FaceMarkerIndex`. */
  function FaceFieldIndex(j: nat, k: nat, faceNodes: nat, width: nat, transpose: bool): (idx: nat)
    requires j < width && k < 7 + faceNodes
    ensures idx == PackIndex(j, k, 7 + faceNodes, width, transpose)
  {
    FaceMarkerIndexAgrees(j, faceNodes, width, transpose);
    if k == faceNodes then FaceMarkerIndex(j, faceNodes, width, transpose)
    else PackIndex(j, k, 7 + faceNodes, width, transpose)
  }

  /** The face records as the face reader's loop assembles them. */
  function FaceRecordsAt(buf: seq<u32>, count: nat, faceNodes: nat, width: nat, transpose: bool)
    : (recs: seq<seq<u32>>)
    requires |buf| == (7 + faceNodes) * width && count <= width
    ensures recs == Unpack(buf, count, 7 + faceNodes, width, transpose)
  {
    var recs := seq(count, j requires 0 <= j < count =>
      seq(7 + faceNodes, k requires 0 <= k < 7 + faceNodes =>
        buf[FaceFieldIndex(j, k, faceNodes, width, transpose)]));
    assert forall j :: 0 <= j < count ==> recs[j] == FieldsAt(buf, j, 7 + faceNodes, width, transpose);
    recs
  }

  /** `readFaces`: each face's nodes must be points of the part. */
  function ReadFacesPass(faces: Table<u32>, rank: nat, numFaces: nat, numPoints: nat, faceNodes: nat,
                         transpose: bool, scratch: seq<u32>): (r: Result<(seq<Face>, seq<u32>)>)
    requires faces.Valid()
    ensures var width := EntityAxis(faces.Dims(), transpose);
            numFaces > width ==> r == Err(CountExceedsTable)
    ensures r.Err? ==> r.error in {CountExceedsTable, DanglingPointRef}
    ensures r.Ok? ==> |r.value.0| == numFaces
    ensures r.Ok? ==> forall j :: 0 <= j < numFaces ==>
                        |r.value.0[j].nodes| == faceNodes && RefsBelow(r.value.0[j].nodes, numPoints)
    ensures r.Ok? ==> var width := EntityAxis(faces.Dims(), transpose);
                      var buf := SlabBuffer(faces, faces.Dims(), rank, 7 + faceNodes, transpose, scratch, 0);
                      && r.value.1 == buf
                      && forall j :: 0 <= j < numFaces ==>
                           FaceRecord(r.value.0[j]) == FieldsAt(buf, j, 7 + faceNodes, width, transpose)
  {
    var width := EntityAxis(faces.Dims(), transpose);
    var buf := SlabBuffer(faces, faces.Dims(), rank, 7 + faceNodes, transpose, scratch, 0);
    if numFaces > width then Err(CountExceedsTable)
    else
      var fs :- DecodeFaces(FaceRecordsAt(buf, numFaces, faceNodes, width, transpose), faceNodes, numPoints);
      Ok((fs, buf))
  }

  /** `readElements`: each element's nodes must be points of the part. */
  function ReadElementsPass(elements: Table<u32>, rank: nat, numElements: nat, numPoints: nat,
                            elementNodes: nat, transpose: bool, scratch: seq<u32>)
    : (r: Result<(seq<Element>, seq<u32>)>)
    requires elements.Valid()
    ensures var width := EntityAxis(elements.Dims(), transpose);
            numElements > width ==> r == Err(CountExceedsTable)
    ensures r.Err? ==> r.error in {CountExceedsTable, DanglingPointRef}
    ensures r.Ok? ==> |r.value.0| == numElements
    ensures r.Ok? ==> forall j :: 0 <= j < numElements ==>
                        |r.value.0[j].nodes| == elementNodes && RefsBelow(r.value.0[j].nodes, numPoints)
    ensures r.Ok? ==> var width := EntityAxis(elements.Dims(), transpose);
                      var buf := SlabBuffer(elements, elements.Dims(), rank, 3 + elementNodes, transpose,
                                            scratch, 0);
                      && r.value.1 == buf
                      && forall j :: 0 <= j < numElements ==>
                           ElementRecord(r.value.0[j]) == FieldsAt(buf, j, 3 + elementNodes, width, transpose)
  {
    var width := EntityAxis(elements.Dims(), transpose);
    var buf := SlabBuffer(elements, elements.Dims(), rank, 3 + elementNodes, transpose, scratch, 0);
    if numElements > width then Err(CountExceedsTable)
    else
      var es :- DecodeElements(Unpack(buf, numElements, 3 + elementNodes, width, transpose),
                               elementNodes, numPoints);
      Ok((es, buf))
  }

  /** `read` as the code does it: the five passes in order, the integer
      scratch buffer carried from pass to pass, no check of the rank. A part
      it returns is well formed. */
  function ReadPartAsWritten(c: Container, rank: nat, faceNodes: nat, elementNodes: nat, transpose: bool,
                             scratch: seq<u32>): (r: Result<MeshPart>)
    requires c.Valid()
    ensures r.Err? ==> r.error != RankOutOfRange
    ensures r.Ok? ==> WellFormed(r.value, faceNodes, elementNodes)
  {
    var st :- ReadStatsPass(c.stats, rank, transpose, scratch);
    var stats := st.0;
    var pts :- ReadPointsPass(c, rank, stats.numPoints, transpose, st.1);
    var es :- ReadEdgesPass(c.edges, rank, stats.numEdges, stats.numPoints, transpose, pts.1);
    var fs :- ReadFacesPass(c.faces, rank, stats.numFaces, stats.numPoints, faceNodes, transpose, es.1);
    var els :- ReadElementsPass(c.elements, rank, stats.numElements, stats.numPoints, elementNodes,
                                transpose, fs.1);
    AssembledWellFormed(pts.0, es.0, fs.0, els.0, stats.counters, faceNodes, elementNodes);
    Ok(MeshPart(pts.0, es.0, fs.0, els.0, stats.counters))
  }

  /** A part assembled from entity lists whose references all resolve
      among its points is well formed. */
  lemma AssembledWellFormed(points: seq<Point>, edges: seq<Edge>, faces: seq<Face>, elements: seq<Element>,
                            counters: Counters, faceNodes: nat, elementNodes: nat)
    requires |points| <= MaxU32 && |edges| <= MaxU32 && |faces| <= MaxU32 && |elements| <= MaxU32
    requires forall j :: 0 <= j < |edges| ==> edges[j].first < |points| && edges[j].second < |points|
    requires forall j :: 0 <= j < |faces| ==> |faces[j].nodes| == faceNodes && RefsBelow(faces[j].nodes, |points|)
    requires forall j :: 0 <= j < |elements| ==>
               |elements[j].nodes| == elementNodes && RefsBelow(elements[j].nodes, |points|)
    ensures WellFormed(MeshPart(points, edges, faces, elements, counters), faceNodes, elementNodes)
  {
  }

  /** The container holds a stats slab for `rank`. */
  predicate RankInContainer(c: Container, rank: nat, transpose: bool)
  {
    rank < PartitionAxis(c.stats.Dims(), transpose)
  }

  /** `read` with the rank checked against the number of parts stored: a
      rank without a slab is an error instead of a part. */
  function ReadPart(c: Container, rank: nat, faceNodes: nat, elementNodes: nat, transpose: bool,
                    scratch: seq<u32>): (r: Result<MeshPart>)
    requires c.Valid()
    ensures r == Err(RankOutOfRange) <==> !RankInContainer(c, rank, transpose)
    ensures RankInContainer(c, rank, transpose) ==>
              r == ReadPartAsWritten(c, rank, faceNodes, elementNodes, transpose, scratch)
    ensures r.Ok? ==> WellFormed(r.value, faceNodes, elementNodes)
  {
    if !RankInContainer(c, rank, transpose) then Err(RankOutOfRange)
    else ReadPartAsWritten(c, rank, faceNodes, elementNodes, transpose, scratch)
  }

  /** As written, a rank beyond the stored parts reads no slab at all: with
      a fresh reader every buffer is zero-filled, so the rank silently
      receives an empty part. The checked read reports the rank instead. */
  lemma OutOfRangeRankReadsEmptyPart(c: Container, rank: nat, faceNodes: nat, elementNodes: nat,
                                     transpose: bool)
    requires c.Valid()
    requires EntityAxis(c.stats.Dims(), transpose) >= StatsFields
    requires !RankInContainer(c, rank, transpose)
    ensures ReadPartAsWritten(c, rank, faceNodes, elementNodes, transpose, []) == Ok(EmptyPart)
    ensures ReadPart(c, rank, faceNodes, elementNodes, transpose, []) == Err(RankOutOfRange)
  {
    var width := EntityAxis(c.stats.Dims(), transpose);
    var buf := SlabBuffer(c.stats, c.stats.Dims(), rank, 1, transpose, [], 0);
    assert !BlockInside(SlabOffset(rank, SlabCount(c.stats.Dims(), 1, transpose), transpose),
                        SlabCount(c.stats.Dims(), 1, transpose), c.stats.Dims());
    assert forall x :: 0 <= x < width ==> buf[x] == 0;
    var st := ReadStatsPass(c.stats, rank, transpose, []);
    assert st == Ok((PartStats(0, 0, 0, 0, NoCounters), buf));
    var pts := ReadPointsPass(c, rank, 0, transpose, buf);
    assert pts.Ok? && pts.value.0 == [];
    var es := ReadEdgesPass(c.edges, rank, 0, 0, transpose, pts.value.1);
    assert es.Ok? && es.value.0 == [];
    var fs := ReadFacesPass(c.faces, rank, 0, 0, faceNodes, transpose, es.value.1);
    assert fs.Ok? && fs.value.0 == [];
    var els := ReadElementsPass(c.elements, rank, 0, 0, elementNodes, transpose, fs.value.1);
    assert els.Ok? && els.value.0 == [];
  }
}
