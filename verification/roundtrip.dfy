/** Writing a container and reading it back: every rank below the number of
    parts recovers exactly its own part, whatever the writer's and the
    reader's scratch buffers held before. */
module RoundTrip {
  import opened Mesh
  import opened Results
  import opened Layout
  import opened Hyperslab
  import opened Packing
  import opened Codec
  import opened Containers
  import opened Writer
  import opened Reader

  /** The reader, deriving count and offset from the shape of a written
      table, receives exactly the buffer the writer packed for that part. */
  lemma ReaderSelectsWriterSlab<T>(recs: seq<seq<seq<T>>>, slab: nat, width: nat, transpose: bool,
                                   prev: seq<T>, fill: T, r: nat, scratch: seq<T>, fill': T)
    requires slab > 0
    requires forall i :: 0 <= i < |recs| ==> Fits(recs[i], slab, width)
    requires r < |recs|
    ensures var table := WriteTable(recs, slab, width, transpose, prev, fill).0;
            SlabBuffer(table, table.Dims(), r, slab, transpose, scratch, fill')
            == PackAll(prev, fill, recs, slab, width, transpose)[r]
  {
    var dims := TableDims(|recs|, slab, width, transpose);
    var bufs := PackAll(prev, fill, recs, slab, width, transpose);
    var t0 := NewTable(dims, fill);
    PackedSlabsFit(recs, slab, width, transpose, prev, fill);
    var count := SlabCount(dims, slab, transpose);
    SlabArea(dims, slab, transpose);
    SlabReadBack(t0, bufs, slab, transpose, r, Resize(scratch, count.rows * count.cols, fill'));
  }

  /** Each part's records survive one entity pass: unpacked with the part's
      own count from its slab, they are the records the writer packed. */
  lemma TableRoundTrip<T>(recs: seq<seq<seq<T>>>, slab: nat, width: nat, transpose: bool,
                          prev: seq<T>, fill: T, r: nat, scratch: seq<T>, fill': T)
    requires slab > 0
    requires forall i :: 0 <= i < |recs| ==> Fits(recs[i], slab, width)
    requires r < |recs|
    ensures var table := WriteTable(recs, slab, width, transpose, prev, fill).0;
            && EntityAxis(table.Dims(), transpose) == width
            && Unpack(SlabBuffer(table, table.Dims(), r, slab, transpose, scratch, fill'),
                      |recs[r]|, slab, width, transpose) == recs[r]
  {
    ReaderSelectsWriterSlab(recs, slab, width, transpose, prev, fill, r, scratch, fill');
    PackAllRoundTrip(prev, fill, recs, slab, width, transpose, r);
  }

  /** Line `r` of the written stats table is part `r`'s whole stats record:
      the part count N, a 0, then the part's counts and counters. */
  lemma StatsLineWritten(parts: seq<MeshPart>, transpose: bool, prev: seq<u32>, r: nat, scratch: seq<u32>)
    requires |parts| <= MaxU32
    requires forall i :: 0 <= i < |parts| ==> CountsFit(parts[i])
    requires r < |parts|
    ensures var table := WriteStats(parts, transpose, prev).0;
            var line := SlabBuffer(table, table.Dims(), r, 1, transpose, scratch, 0);
            && line == StatsRecord(parts[r], |parts|)
            && |line| == StatsFields && line[0] == |parts| && line[1] == 0
  {
    var dims := TableDims(|parts|, 1, StatsFields, transpose);
    var recs := StatsRecords(parts);
    var t0 := NewTable(dims, 0);
    AllSlabsInside(|parts|, 1, StatsFields, transpose);
    var count := SlabCount(dims, 1, transpose);
    SlabArea(dims, 1, transpose);
    assert SlabsFit(t0, recs, 1, transpose);
    SlabReadBack(t0, recs, 1, transpose, r, Resize(scratch, count.rows * count.cols, 0));
  }

  /** The stats pass gives rank `r` the counts and counters of part `r`. */
  lemma StatsReadBack(parts: seq<MeshPart>, transpose: bool, prev: seq<u32>, r: nat, scratch: seq<u32>)
    requires |parts| <= MaxU32
    requires forall i :: 0 <= i < |parts| ==> CountsFit(parts[i])
    requires r < |parts|
    ensures var st := ReadStatsPass(WriteStats(parts, transpose, prev).0, r, transpose, scratch);
            var p := parts[r];
            st.Ok? && st.value.0 == PartStats(|p.points|, |p.edges|, |p.faces|, |p.elements|, p.counters)
  {
    StatsLineWritten(parts, transpose, prev, r, scratch);
    StatsRoundTrip(parts[r], |parts|);
  }

  /** The point pass gives rank `r` the points of part `r`. */
  lemma PointsReadBack(c: Container, parts: seq<MeshPart>, width: nat, transpose: bool,
                       prev: seq<u32>, r: nat, scratch: seq<u32>)
    requires c.Valid()
    requires forall i :: 0 <= i < |parts| ==> |parts[i].points| <= width
    requires c.pointIds == WritePoints(parts, width, transpose, prev).0
    requires c.pointCoords == WritePoints(parts, width, transpose, prev).1
    requires r < |parts|
    ensures var pts := ReadPointsPass(c, r, |parts[r].points|, transpose, scratch);
            pts.Ok? && pts.value.0 == parts[r].points
  {
    var ps := parts[r].points;
    PointRecordsFit(parts, width);
    TableRoundTrip(PointIdRecords(parts), 3, width, transpose, prev, 0, r, scratch, 0);
    TableRoundTrip(PointCoordRecords(parts), 3, width, transpose, [], Zero, r, [], Zero);
    var pts := ReadPointsPass(c, r, |ps|, transpose, scratch);
    var ids := SlabBuffer(c.pointIds, c.pointIds.Dims(), r, 3, transpose, scratch, 0);
    var coords := SlabBuffer(c.pointCoords, c.pointIds.Dims(), r, 3, transpose, [], Zero);
    forall j | 0 <= j < |ps|
      ensures pts.value.0[j] == ps[j]
    {
      assert FieldsAt(ids, j, 3, width, transpose) == Unpack(ids, |ps|, 3, width, transpose)[j];
      assert FieldsAt(coords, j, 3, width, transpose) == Unpack(coords, |ps|, 3, width, transpose)[j];
      assert PointIdRecord(pts.value.0[j]) == PointIdRecord(ps[j]);
      assert PointCoordRecord(pts.value.0[j]) == PointCoordRecord(ps[j]);
    }
  }

  /** The edge pass gives rank `r` the edges of part `r`. */
  lemma EdgesReadBack(parts: seq<MeshPart>, width: nat, transpose: bool, prev: seq<u32>,
                      r: nat, scratch: seq<u32>)
    requires forall i :: 0 <= i < |parts| ==> |parts[i].edges| <= width
    requires r < |parts|
    requires forall j :: 0 <= j < |parts[r].edges| ==>
               parts[r].edges[j].first < |parts[r].points| && parts[r].edges[j].second < |parts[r].points|
    ensures var table := WriteEdges(parts, width, transpose, prev).0;
            var es := ReadEdgesPass(table, r, |parts[r].edges|, |parts[r].points|, transpose, scratch);
            es.Ok? && es.value.0 == parts[r].edges
  {
    var edges := parts[r].edges;
    EdgeRecordsFit(parts, width);
    TableRoundTrip(EdgeRecords(parts), 5, width, transpose, prev, 0, r, scratch, 0);
    EdgesRoundTrip(edges, |parts[r].points|);
    assert EdgeRecords(parts)[r] == seq(|edges|, j requires 0 <= j < |edges| => EdgeRecord(edges[j]));
  }

  /** The face pass gives rank `r` the faces of part `r`. */
  lemma FacesReadBack(parts: seq<MeshPart>, faceNodes: nat, width: nat, transpose: bool, prev: seq<u32>,
                      r: nat, scratch: seq<u32>)
    requires forall i :: 0 <= i < |parts| ==> |parts[i].faces| <= width
    requires forall i, j :: 0 <= i < |parts| && 0 <= j < |parts[i].faces| ==>
               |parts[i].faces[j].nodes| == faceNodes
    requires r < |parts|
    requires forall j :: 0 <= j < |parts[r].faces| ==> RefsBelow(parts[r].faces[j].nodes, |parts[r].points|)
    ensures var table := WriteFaces(parts, faceNodes, width, transpose, prev).0;
            var fs := ReadFacesPass(table, r, |parts[r].faces|, |parts[r].points|, faceNodes, transpose, scratch);
            fs.Ok? && fs.value.0 == parts[r].faces
  {
    var faces := parts[r].faces;
    var numPoints := |parts[r].points|;
    FaceRecordsFit(parts, faceNodes, width);
    var table := WriteFaces(parts, faceNodes, width, transpose, prev).0;
    assert table == WriteTable(FaceRecords(parts), 7 + faceNodes, width, transpose, prev, 0).0;
    TableRoundTrip(FaceRecords(parts), 7 + faceNodes, width, transpose, prev, 0, r, scratch, 0);
    assert FaceRecords(parts)[r] == seq(|faces|, j requires 0 <= j < |faces| => FaceRecord(faces[j]));
    FacePassDecodes(table, r, faces, numPoints, faceNodes, transpose, scratch);
  }

  /** A face slab whose first entities hold the records of `faces` is read
      back as `faces`, provided their nodes are points of the part. */
  lemma FacePassDecodes(table: Table<u32>, r: nat, faces: seq<Face>, numPoints: nat, faceNodes: nat,
                        transpose: bool, scratch: seq<u32>)
    requires table.Valid()
    requires |faces| <= EntityAxis(table.Dims(), transpose)
    requires forall j :: 0 <= j < |faces| ==>
               |faces[j].nodes| == faceNodes && RefsBelow(faces[j].nodes, numPoints)
    requires Unpack(SlabBuffer(table, table.Dims(), r, 7 + faceNodes, transpose, scratch, 0), |faces|,
                    7 + faceNodes, EntityAxis(table.Dims(), transpose), transpose)
             == seq(|faces|, j requires 0 <= j < |faces| => FaceRecord(faces[j]))
    ensures var fs := ReadFacesPass(table, r, |faces|, numPoints, faceNodes, transpose, scratch);
            fs.Ok? && fs.value.0 == faces
  {
    FacesRoundTrip(faces, faceNodes, numPoints);
  }

  /** The element pass gives rank `r` the elements of part `r`. */
  lemma ElementsReadBack(parts: seq<MeshPart>, elementNodes: nat, width: nat, transpose: bool,
                         prev: seq<u32>, r: nat, scratch: seq<u32>)
    requires forall i :: 0 <= i < |parts| ==> |parts[i].elements| <= width
    requires forall i, j :: 0 <= i < |parts| && 0 <= j < |parts[i].elements| ==>
               |parts[i].elements[j].nodes| == elementNodes
    requires r < |parts|
    requires forall j :: 0 <= j < |parts[r].elements| ==>
               RefsBelow(parts[r].elements[j].nodes, |parts[r].points|)
    ensures var table := WriteElements(parts, elementNodes, width, transpose, prev).0;
            var es := ReadElementsPass(table, r, |parts[r].elements|, |parts[r].points|, elementNodes,
                                       transpose, scratch);
            es.Ok? && es.value.0 == parts[r].elements
  {
    var elements := parts[r].elements;
    var numPoints := |parts[r].points|;
    ElementRecordsFit(parts, elementNodes, width);
    var table := WriteElements(parts, elementNodes, width, transpose, prev).0;
    assert table == WriteTable(ElementRecords(parts), 3 + elementNodes, width, transpose, prev, 0).0;
    TableRoundTrip(ElementRecords(parts), 3 + elementNodes, width, transpose, prev, 0, r, scratch, 0);
    assert ElementRecords(parts)[r]
           == seq(|elements|, j requires 0 <= j < |elements| => ElementRecord(elements[j]));
    ElementPassDecodes(table, r, elements, numPoints, elementNodes, transpose, scratch);
  }

  /** An element slab whose first entities hold the records of `elements`
      is read back as `elements`, provided their nodes are points of the
      part. */
  lemma ElementPassDecodes(table: Table<u32>, r: nat, elements: seq<Element>, numPoints: nat,
                           elementNodes: nat, transpose: bool, scratch: seq<u32>)
    requires table.Valid()
    requires |elements| <= EntityAxis(table.Dims(), transpose)
    requires forall j :: 0 <= j < |elements| ==>
               |elements[j].nodes| == elementNodes && RefsBelow(elements[j].nodes, numPoints)
    requires Unpack(SlabBuffer(table, table.Dims(), r, 3 + elementNodes, transpose, scratch, 0), |elements|,
                    3 + elementNodes, EntityAxis(table.Dims(), transpose), transpose)
             == seq(|elements|, j requires 0 <= j < |elements| => ElementRecord(elements[j]))
    ensures var es := ReadElementsPass(table, r, |elements|, numPoints, elementNodes, transpose, scratch);
            es.Ok? && es.value.0 == elements
  {
    ElementsRoundTrip(elements, elementNodes, numPoints);
  }

  /** Write then read: every rank below the number of parts reads back its
      own part, for any maxima the writer carried and any scratch contents
      of writer and reader. */
  lemma WriteThenRead(parts: seq<MeshPart>, faceNodes: nat, elementNodes: nat, transpose: bool,
                      wscratch: seq<u32>, carried: Maxima, r: nat, rscratch: seq<u32>)
    requires |parts| <= MaxU32
    requires forall i :: 0 <= i < |parts| ==> WellFormed(parts[i], faceNodes, elementNodes)
    requires r < |parts|
    ensures ReadPart(Write(parts, faceNodes, elementNodes, transpose, wscratch, carried),
                     r, faceNodes, elementNodes, transpose, rscratch) == Ok(parts[r])
  {
    var c := Write(parts, faceNodes, elementNodes, transpose, wscratch, carried);
    var m := RunningMaxima(parts, carried);
    RunningMaximaDominate(parts, carried);
    var p := parts[r];
    assert WellFormed(p, faceNodes, elementNodes);
    var st := WriteStats(parts, transpose, wscratch);
    var ws := WritePoints(parts, m.points, transpose, st.1);
    var we := WriteEdges(parts, m.edges, transpose, ws.2);
    var wf := WriteFaces(parts, faceNodes, m.faces, transpose, we.1);
    assert RankInContainer(c, r, transpose);

    var s := ReadStatsPass(c.stats, r, transpose, rscratch);
    StatsReadBack(parts, transpose, wscratch, r, rscratch);
    var pts := ReadPointsPass(c, r, |p.points|, transpose, s.value.1);
    PointsReadBack(c, parts, m.points, transpose, st.1, r, s.value.1);
    var edges := ReadEdgesPass(c.edges, r, |p.edges|, |p.points|, transpose, pts.value.1);
    EdgesReadBack(parts, m.edges, transpose, ws.2, r, pts.value.1);
    var faces := ReadFacesPass(c.faces, r, |p.faces|, |p.points|, faceNodes, transpose, edges.value.1);
    FacesReadBack(parts, faceNodes, m.faces, transpose, we.1, r, edges.value.1);
    var elements := ReadElementsPass(c.elements, r, |p.elements|, |p.points|, elementNodes, transpose,
                                     faces.value.1);
    ElementsReadBack(parts, elementNodes, m.elements, transpose, wf.1, r, faces.value.1);
  }

  /** Under the checked read, ranks beyond the stored parts are refused,
      whatever was written. */
  lemma WriteThenReadBeyondParts(parts: seq<MeshPart>, faceNodes: nat, elementNodes: nat, transpose: bool,
                                 wscratch: seq<u32>, carried: Maxima, r: nat, rscratch: seq<u32>)
    requires |parts| <= MaxU32
    requires forall i :: 0 <= i < |parts| ==> WellFormed(parts[i], faceNodes, elementNodes)
    requires r >= |parts|
    ensures var c := Write(parts, faceNodes, elementNodes, transpose, wscratch, carried);
            && ReadPart(c, r, faceNodes, elementNodes, transpose, rscratch) == Err(RankOutOfRange)
            && ReadPartAsWritten(c, r, faceNodes, elementNodes, transpose, []) == Ok(EmptyPart)
  {
    var c := Write(parts, faceNodes, elementNodes, transpose, wscratch, carried);
    OutOfRangeRankReadsEmptyPart(c, r, faceNodes, elementNodes, transpose);
  }
}
