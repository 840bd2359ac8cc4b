/** The writer: from the N mesh parts of one mesh to the six tables of the
    container. The stats pass fills one stats line per part and keeps
    running maxima of the entity counts; the maxima size the four entity
    passes, each of which packs every part into the shared scratch buffer
    and transfers it to the part's slab. */
module Writer {
  import opened Mesh
  import opened Layout
  import opened Hyperslab
  import opened Packing
  import opened Codec
  import opened Containers

  /** The writer's maximum point, edge, face and volume counts. They are
      object state: set to 0 by the full constructor and by `setup`, left
      unset by the default constructor, and not reset by a write. */
  datatype Maxima = Maxima(points: nat, edges: nat, faces: nat, elements: nat)

  /** The maxima of a writer that was just constructed or set up. */
  const NoMaxima: Maxima := Maxima(0, 0, 0, 0)

  function MaxOf(m: Maxima, kind: Entity): nat
  {
    match kind
    case Points => m.points
    case Edges => m.edges
    case Faces => m.faces
    case Elements => m.elements
  }

  /** One stats-loop step: each maximum is replaced by the part's count
      when the count is strictly larger. */
  function Raise(m: Maxima, part: MeshPart): Maxima
  {
    Maxima(if |part.points| > m.points then |part.points| else m.points,
           if |part.edges| > m.edges then |part.edges| else m.edges,
           if |part.faces| > m.faces then |part.faces| else m.faces,
           if |part.elements| > m.elements then |part.elements| else m.elements)
  }

  /** The maxima after the stats loop has seen `parts`, in order, starting
      from `init`. */
  function RunningMaxima(parts: seq<MeshPart>, init: Maxima): (m: Maxima)
    ensures m.points >= init.points && m.edges >= init.edges
    ensures m.faces >= init.faces && m.elements >= init.elements
    decreases |parts|
  {
    if |parts| == 0 then init
    else Raise(RunningMaxima(parts[..|parts| - 1], init), parts[|parts| - 1])
  }

  /** Each running maximum dominates its initial value and every part's
      count, and is either its initial value or the count of some part. */
  lemma {:induction false} RunningMaximaBounds(parts: seq<MeshPart>, init: Maxima, kind: Entity)
    ensures MaxOf(init, kind) <= MaxOf(RunningMaxima(parts, init), kind)
    ensures forall i :: 0 <= i < |parts| ==> Count(parts[i], kind) <= MaxOf(RunningMaxima(parts, init), kind)
    ensures MaxOf(RunningMaxima(parts, init), kind) == MaxOf(init, kind) ||
            exists i :: 0 <= i < |parts| && MaxOf(RunningMaxima(parts, init), kind) == Count(parts[i], kind)
    decreases |parts|
  {
    if |parts| > 0 {
      var n := |parts| - 1;
      var before := RunningMaxima(parts[..n], init);
      RunningMaximaBounds(parts[..n], init, kind);
      assert forall i :: 0 <= i < n ==> parts[..n][i] == parts[i];
      if MaxOf(before, kind) != MaxOf(init, kind) {
        var i :| 0 <= i < n && MaxOf(before, kind) == Count(parts[..n][i], kind);
        assert MaxOf(before, kind) == Count(parts[i], kind);
      }
    }
  }

  /** For a freshly set-up writer each maximum is exactly the largest count
      of its kind: 0 when there are no parts, otherwise the count of some
      part, and no part's count exceeds it. */
  lemma FreshMaximaAreLargestCounts(parts: seq<MeshPart>, kind: Entity)
    ensures var m := MaxOf(RunningMaxima(parts, NoMaxima), kind);
            && (forall i :: 0 <= i < |parts| ==> Count(parts[i], kind) <= m)
            && (|parts| == 0 ==> m == 0)
            && (|parts| > 0 ==> exists i :: 0 <= i < |parts| && m == Count(parts[i], kind))
  {
    RunningMaximaBounds(parts, NoMaxima, kind);
    var m := MaxOf(RunningMaxima(parts, NoMaxima), kind);
    if |parts| > 0 && m == 0 {
      assert Count(parts[0], kind) <= m;
      assert m == Count(parts[0], kind);
    }
  }

  /** The maxima bound every part's four counts, so each part fits the
      tables the maxima size. */
  lemma RunningMaximaDominate(parts: seq<MeshPart>, init: Maxima)
    ensures var m := RunningMaxima(parts, init);
            forall i :: 0 <= i < |parts| ==>
              |parts[i].points| <= m.points && |parts[i].edges| <= m.edges &&
              |parts[i].faces| <= m.faces && |parts[i].elements| <= m.elements
  {
    RunningMaximaBounds(parts, init, Points);
    RunningMaximaBounds(parts, init, Edges);
    RunningMaximaBounds(parts, init, Faces);
    RunningMaximaBounds(parts, init, Elements);
  }

  /** Every part's stats line, in part order. */
  function StatsRecords(parts: seq<MeshPart>): (recs: seq<seq<u32>>)
    requires |parts| <= MaxU32
    requires forall i :: 0 <= i < |parts| ==> CountsFit(parts[i])
    ensures |recs| == |parts|
    ensures forall i :: 0 <= i < |parts| ==> recs[i] == StatsRecord(parts[i], |parts|)
  {
    seq(|parts|, i requires 0 <= i < |parts| => StatsRecord(parts[i], |parts|))
  }

  /** The stats pass: an `N x 15` table (`15 x N` transposed), part `i`'s
      line at slab `i`. Also returns the scratch buffer it leaves behind. */
  function WriteStats(parts: seq<MeshPart>, transpose: bool, prev: seq<u32>): (out: (Table<u32>, seq<u32>))
    requires |parts| <= MaxU32
    requires forall i :: 0 <= i < |parts| ==> CountsFit(parts[i])
    ensures out.0.Valid()
    ensures out.0.Dims() == TableDims(|parts|, 1, StatsFields, transpose)
  {
    var dims := TableDims(|parts|, 1, StatsFields, transpose);
    var recs := StatsRecords(parts);
    AllSlabsInside(|parts|, 1, StatsFields, transpose);
    (WriteSlabs(NewTable(dims, 0), recs, 1, transpose), Leftover(prev, 0, recs, StatsFields))
  }

  /** One entity pass over a table: pack every part (starting from the
      scratch buffer `prev`) and write each buffer to its slab. Returns the
      table and the scratch buffer left behind. */
  function WriteTable<T>(recs: seq<seq<seq<T>>>, slab: nat, width: nat, transpose: bool,
                         prev: seq<T>, fill: T): (out: (Table<T>, seq<T>))
    requires slab > 0
    requires forall i :: 0 <= i < |recs| ==> Fits(recs[i], slab, width)
    ensures out.0.Valid() && out.0.Dims() == TableDims(|recs|, slab, width, transpose)
  {
    var dims := TableDims(|recs|, slab, width, transpose);
    var bufs := PackAll(prev, fill, recs, slab, width, transpose);
    PackedSlabsFit(recs, slab, width, transpose, prev, fill);
    (WriteSlabs(NewTable(dims, fill), bufs, slab, transpose), Leftover(prev, fill, bufs, slab * width))
  }

  /** The packed buffers of a pass fit the slabs of the table it creates. */
  lemma PackedSlabsFit<T>(recs: seq<seq<seq<T>>>, slab: nat, width: nat, transpose: bool,
                          prev: seq<T>, fill: T)
    requires slab > 0
    requires forall i :: 0 <= i < |recs| ==> Fits(recs[i], slab, width)
    ensures SlabsFit(NewTable(TableDims(|recs|, slab, width, transpose), fill),
                     PackAll(prev, fill, recs, slab, width, transpose), slab, transpose)
  {
    var dims := TableDims(|recs|, slab, width, transpose);
    AllSlabsInside(|recs|, slab, width, transpose);
    SlabArea(dims, slab, transpose);
  }

  function PointIdRecords(parts: seq<MeshPart>): seq<seq<seq<u32>>>
  {
    seq(|parts|, i requires 0 <= i < |parts| =>
      seq(|parts[i].points|, j requires 0 <= j < |parts[i].points| => PointIdRecord(parts[i].points[j])))
  }

  function PointCoordRecords(parts: seq<MeshPart>): seq<seq<seq<Float64>>>
  {
    seq(|parts|, i requires 0 <= i < |parts| =>
      seq(|parts[i].points|, j requires 0 <= j < |parts[i].points| => PointCoordRecord(parts[i].points[j])))
  }

  function EdgeRecords(parts: seq<MeshPart>): seq<seq<seq<u32>>>
  {
    seq(|parts|, i requires 0 <= i < |parts| =>
      seq(|parts[i].edges|, j requires 0 <= j < |parts[i].edges| => EdgeRecord(parts[i].edges[j])))
  }

  function FaceRecords(parts: seq<MeshPart>): seq<seq<seq<u32>>>
  {
    seq(|parts|, i requires 0 <= i < |parts| =>
      seq(|parts[i].faces|, j requires 0 <= j < |parts[i].faces| => FaceRecord(parts[i].faces[j])))
  }

  function ElementRecords(parts: seq<MeshPart>): seq<seq<seq<u32>>>
  {
    seq(|parts|, i requires 0 <= i < |parts| =>
      seq(|parts[i].elements|, j requires 0 <= j < |parts[i].elements| => ElementRecord(parts[i].elements[j])))
  }

  /** Each part's point records fit a point table `width` entities wide. */
  lemma PointRecordsFit(parts: seq<MeshPart>, width: nat)
    requires forall i :: 0 <= i < |parts| ==> |parts[i].points| <= width
    ensures forall i :: 0 <= i < |parts| ==> Fits(PointIdRecords(parts)[i], 3, width)
    ensures forall i :: 0 <= i < |parts| ==> Fits(PointCoordRecords(parts)[i], 3, width)
  {
  }

  lemma EdgeRecordsFit(parts: seq<MeshPart>, width: nat)
    requires forall i :: 0 <= i < |parts| ==> |parts[i].edges| <= width
    ensures forall i :: 0 <= i < |parts| ==> Fits(EdgeRecords(parts)[i], 5, width)
  {
  }

  lemma FaceRecordsFit(parts: seq<MeshPart>, faceNodes: nat, width: nat)
    requires forall i :: 0 <= i < |parts| ==> |parts[i].faces| <= width
    requires forall i, j :: 0 <= i < |parts| && 0 <= j < |parts[i].faces| ==>
               |parts[i].faces[j].nodes| == faceNodes
    ensures forall i :: 0 <= i < |parts| ==> Fits(FaceRecords(parts)[i], 7 + faceNodes, width)
  {
  }

  lemma ElementRecordsFit(parts: seq<MeshPart>, elementNodes: nat, width: nat)
    requires forall i :: 0 <= i < |parts| ==> |parts[i].elements| <= width
    requires forall i, j :: 0 <= i < |parts| && 0 <= j < |parts[i].elements| ==>
               |parts[i].elements[j].nodes| == elementNodes
    ensures forall i :: 0 <= i < |parts| ==> Fits(ElementRecords(parts)[i], 3 + elementNodes, width)
  {
  }

  /** `writePoints`: the integer point table (marker, id, flag lines) and
      the coordinate table (x, y, z lines), both `3N x width`. The
      coordinate buffer starts empty; the integer one is the scratch
      buffer. */
  function WritePoints(parts: seq<MeshPart>, width: nat, transpose: bool, prev: seq<u32>)
    : (out: (Table<u32>, Table<Float64>, seq<u32>))
    requires forall i :: 0 <= i < |parts| ==> |parts[i].points| <= width
    ensures out.0.Valid() && out.0.Dims() == TableDims(|parts|, 3, width, transpose)
    ensures out.1.Valid() && out.1.Dims() == out.0.Dims()
  {
    PointRecordsFit(parts, width);
    var ids := WriteTable(PointIdRecords(parts), 3, width, transpose, prev, 0);
    var coords := WriteTable(PointCoordRecords(parts), 3, width, transpose, [], Zero);
    (ids.0, coords.0, ids.1)
  }

  /** `writeEdges`: a `5N x width` table. */
  function WriteEdges(parts: seq<MeshPart>, width: nat, transpose: bool, prev: seq<u32>)
    : (out: (Table<u32>, seq<u32>))
    requires forall i :: 0 <= i < |parts| ==> |parts[i].edges| <= width
    ensures out.0.Valid() && out.0.Dims() == TableDims(|parts|, 5, width, transpose)
  {
    EdgeRecordsFit(parts, width);
    WriteTable(EdgeRecords(parts), 5, width, transpose, prev, 0)
  }

  /** `writeFaces`: a `(7 + F)N x width` table. */
  function WriteFaces(parts: seq<MeshPart>, faceNodes: nat, width: nat, transpose: bool, prev: seq<u32>)
    : (out: (Table<u32>, seq<u32>))
    requires forall i :: 0 <= i < |parts| ==> |parts[i].faces| <= width
    requires forall i, j :: 0 <= i < |parts| && 0 <= j < |parts[i].faces| ==>
               |parts[i].faces[j].nodes| == faceNodes
    ensures out.0.Valid() && out.0.Dims() == TableDims(|parts|, 7 + faceNodes, width, transpose)
  {
    FaceRecordsFit(parts, faceNodes, width);
    WriteTable(FaceRecords(parts), 7 + faceNodes, width, transpose, prev, 0)
  }

  /** `writeElements`: a `(3 + E)N x width` table. */
  function WriteElements(parts: seq<MeshPart>, elementNodes: nat, width: nat, transpose: bool,
                         prev: seq<u32>): (out: (Table<u32>, seq<u32>))
    requires forall i :: 0 <= i < |parts| ==> |parts[i].elements| <= width
    requires forall i, j :: 0 <= i < |parts| && 0 <= j < |parts[i].elements| ==>
               |parts[i].elements[j].nodes| == elementNodes
    ensures out.0.Valid() && out.0.Dims() == TableDims(|parts|, 3 + elementNodes, width, transpose)
  {
    ElementRecordsFit(parts, elementNodes, width);
    WriteTable(ElementRecords(parts), 3 + elementNodes, width, transpose, prev, 0)
  }

  /** Well-formed parts satisfy the preconditions of the passes. */
  lemma NodeCounts(parts: seq<MeshPart>, faceNodes: nat, elementNodes: nat)
    requires forall i :: 0 <= i < |parts| ==> WellFormed(parts[i], faceNodes, elementNodes)
    ensures forall i :: 0 <= i < |parts| ==> CountsFit(parts[i])
    ensures forall i, j :: 0 <= i < |parts| && 0 <= j < |parts[i].faces| ==>
              |parts[i].faces[j].nodes| == faceNodes
    ensures forall i, j :: 0 <= i < |parts| && 0 <= j < |parts[i].elements| ==>
              |parts[i].elements[j].nodes| == elementNodes
  {
    forall i | 0 <= i < |parts|
      ensures CountsFit(parts[i])
      ensures forall j :: 0 <= j < |parts[i].faces| ==> |parts[i].faces[j].nodes| == faceNodes
      ensures forall j :: 0 <= j < |parts[i].elements| ==> |parts[i].elements[j].nodes| == elementNodes
    {
      assert WellFormed(parts[i], faceNodes, elementNodes);
    }
  }

  /** The five passes of `write`, each entity table as wide as the
      corresponding maximum in `m`. */
  function WritePasses(parts: seq<MeshPart>, faceNodes: nat, elementNodes: nat, transpose: bool,
                       scratch: seq<u32>, m: Maxima): (c: Container)
    requires |parts| <= MaxU32
    requires forall i :: 0 <= i < |parts| ==> CountsFit(parts[i])
    requires forall i :: 0 <= i < |parts| ==>
               |parts[i].points| <= m.points && |parts[i].edges| <= m.edges &&
               |parts[i].faces| <= m.faces && |parts[i].elements| <= m.elements
    requires forall i, j :: 0 <= i < |parts| && 0 <= j < |parts[i].faces| ==>
               |parts[i].faces[j].nodes| == faceNodes
    requires forall i, j :: 0 <= i < |parts| && 0 <= j < |parts[i].elements| ==>
               |parts[i].elements[j].nodes| == elementNodes
    ensures c.Valid()
    ensures c.stats.Dims() == TableDims(|parts|, 1, StatsFields, transpose)
    ensures c.pointIds.Dims() == TableDims(|parts|, 3, m.points, transpose)
    ensures c.pointCoords.Dims() == c.pointIds.Dims()
    ensures c.edges.Dims() == TableDims(|parts|, 5, m.edges, transpose)
    ensures c.faces.Dims() == TableDims(|parts|, 7 + faceNodes, m.faces, transpose)
    ensures c.elements.Dims() == TableDims(|parts|, 3 + elementNodes, m.elements, transpose)
  {
    var st := WriteStats(parts, transpose, scratch);
    var pts := WritePoints(parts, m.points, transpose, st.1);
    var es := WriteEdges(parts, m.edges, transpose, pts.2);
    var fs := WriteFaces(parts, faceNodes, m.faces, transpose, es.1);
    var els := WriteElements(parts, elementNodes, m.elements, transpose, fs.1);
    Container(st.0, pts.0, pts.1, es.0, fs.0, els.0)
  }

  /** `write`: the stats pass, then points, edges, faces and elements, the
      integer scratch buffer carried from pass to pass and the entity tables
      sized by the running maxima. `carried` is the writer object's maxima
      before the call, `scratch` its integer buffer. */
  function Write(parts: seq<MeshPart>, faceNodes: nat, elementNodes: nat, transpose: bool,
                 scratch: seq<u32>, carried: Maxima): (c: Container)
    requires |parts| <= MaxU32
    requires forall i :: 0 <= i < |parts| ==> WellFormed(parts[i], faceNodes, elementNodes)
    ensures c.Valid()
    ensures var n := |parts|;
            var m := RunningMaxima(parts, carried);
            && c.stats.Dims() == TableDims(n, 1, StatsFields, transpose)
            && c.pointIds.Dims() == TableDims(n, 3, m.points, transpose)
            && c.pointCoords.Dims() == c.pointIds.Dims()
            && c.edges.Dims() == TableDims(n, 5, m.edges, transpose)
            && c.faces.Dims() == TableDims(n, 7 + faceNodes, m.faces, transpose)
            && c.elements.Dims() == TableDims(n, 3 + elementNodes, m.elements, transpose)
  {
    RunningMaximaDominate(parts, carried);
    NodeCounts(parts, faceNodes, elementNodes);
    WritePasses(parts, faceNodes, elementNodes, transpose, scratch, RunningMaxima(parts, carried))
  }
}
