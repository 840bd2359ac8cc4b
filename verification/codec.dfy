/** The field records of each entity kind, in the order of the table
    lines, and the reader's decoding of them. Decoding a record resolves
    its point references against the part's point count. */
module Codec {
  import opened Mesh
  import opened Results
  import opened Layout

  /** The per-part counters the reader recovers from the stats slab. */
  datatype PartStats = PartStats(numPoints: u32, numEdges: u32, numFaces: u32, numElements: u32,
                                 counters: Counters)

  /** The fifteen stats entries of a part: the part count, an unused
      entry, then point, boundary point, vertex, boundary vertex, global
      vertex, edge, boundary edge, global edge, face, boundary face, global
      face, volume and global volume counts. */
  function StatsRecord(part: MeshPart, numParts: u32): (rec: seq<u32>)
    requires CountsFit(part)
    ensures |rec| == StatsFields
  {
    var c := part.counters;
    [numParts, 0,
     |part.points|, c.boundaryPoints, c.vertices, c.boundaryVertices, c.globalVertices,
     |part.edges|, c.boundaryEdges, c.globalEdges,
     |part.faces|, c.boundaryFaces, c.globalFaces,
     |part.elements|, c.globalVolumes]
  }

  /** Entries 2 to 14 of a stats record, in their order on the line. */
  function StatsEntries(s: PartStats): (e: seq<u32>)
  {
    var c := s.counters;
    [s.numPoints, c.boundaryPoints, c.vertices, c.boundaryVertices, c.globalVertices,
     s.numEdges, c.boundaryEdges, c.globalEdges,
     s.numFaces, c.boundaryFaces, c.globalFaces,
     s.numElements, c.globalVolumes]
  }

  /** The reader's interpretation of a stats slab: entity counts from
      entries 2, 7, 10 and 13, the other counters from the rest; entries 0
      and 1 are not used. */
  function DecodeStats(rec: seq<u32>): (s: PartStats)
    requires |rec| >= StatsFields
    ensures rec[2..StatsFields] == StatsEntries(s)
  {
    PartStats(rec[2], rec[7], rec[10], rec[13],
              Counters(rec[3], rec[4], rec[5], rec[6], rec[8], rec[9], rec[11], rec[12], rec[14]))
  }

  /** The reader recovers a part's own counts and counters from the record
      the writer stored; the record starts with the part count and a 0. */
  lemma StatsRoundTrip(part: MeshPart, numParts: u32)
    requires CountsFit(part)
    ensures var rec := StatsRecord(part, numParts);
            && rec[0] == numParts && rec[1] == 0
            && DecodeStats(rec) == PartStats(|part.points|, |part.edges|, |part.faces|,
                                             |part.elements|, part.counters)
  {
  }

  /** Point lines of the integer table: marker, global id, flag. */
  function PointIdRecord(p: Point): seq<u32>
  {
    [p.marker, p.id, p.flag]
  }

  /** Point lines of the coordinate table: x, y, z. */
  function PointCoordRecord(p: Point): seq<Float64>
  {
    [p.x, p.y, p.z]
  }

  function DecodePoint(ids: seq<u32>, coords: seq<Float64>): (p: Point)
    requires |ids| == 3 && |coords| == 3
    ensures PointIdRecord(p) == ids && PointCoordRecord(p) == coords
  {
    Point(ids[0], ids[1], ids[2], coords[0], coords[1], coords[2])
  }

  /** Rebuilds the points of a part in column order; a point's local id is
      its position. */
  function DecodePoints(ids: seq<seq<u32>>, coords: seq<seq<Float64>>): (ps: seq<Point>)
    requires |ids| == |coords|
    requires forall j :: 0 <= j < |ids| ==> |ids[j]| == 3 && |coords[j]| == 3
    ensures |ps| == |ids|
    ensures forall j :: 0 <= j < |ps| ==> PointIdRecord(ps[j]) == ids[j] && PointCoordRecord(ps[j]) == coords[j]
  {
    seq(|ids|, j requires 0 <= j < |ids| => DecodePoint(ids[j], coords[j]))
  }

  /** Decoding the records of a sequence of points gives the points back. */
  lemma PointsRoundTrip(ps: seq<Point>)
    ensures DecodePoints(seq(|ps|, j requires 0 <= j < |ps| => PointIdRecord(ps[j])),
                         seq(|ps|, j requires 0 <= j < |ps| => PointCoordRecord(ps[j]))) == ps
  {
  }

  /** Edge lines: first end point, second end point, marker, global id,
      flag. */
  function EdgeRecord(e: Edge): seq<u32>
  {
    [e.first, e.second, e.marker, e.id, e.flag]
  }

  predicate EdgeRefsValid(rec: seq<u32>, numPoints: nat)
    requires |rec| == 5
  {
    rec[0] < numPoints && rec[1] < numPoints
  }

  /** Rebuilds the edges; every end point must resolve to a point of the
      part. */
  function DecodeEdges(recs: seq<seq<u32>>, numPoints: nat): (r: Result<seq<Edge>>)
    requires forall j :: 0 <= j < |recs| ==> |recs[j]| == 5
    ensures r.Ok? <==> forall j :: 0 <= j < |recs| ==> EdgeRefsValid(recs[j], numPoints)
    ensures r.Err? ==> r.error == DanglingPointRef
    ensures r.Ok? ==> |r.value| == |recs|
    ensures r.Ok? ==> forall j :: 0 <= j < |recs| ==> EdgeRecord(r.value[j]) == recs[j]
    ensures r.Ok? ==> forall j :: 0 <= j < |recs| ==>
              r.value[j].first < numPoints && r.value[j].second < numPoints
  {
    if forall j :: 0 <= j < |recs| ==> EdgeRefsValid(recs[j], numPoints) then
      Ok(seq(|recs|, j requires 0 <= j < |recs| =>
           Edge(recs[j][0], recs[j][1], recs[j][2], recs[j][3], recs[j][4])))
    else Err(DanglingPointRef)
  }

  /** Decoding edge records succeeds exactly when every end point is below
      the point count, and then gives the edges back. */
  lemma EdgesRoundTrip(es: seq<Edge>, numPoints: nat)
    ensures var recs := seq(|es|, j requires 0 <= j < |es| => EdgeRecord(es[j]));
            var r := DecodeEdges(recs, numPoints);
            && (r.Ok? <==> forall j :: 0 <= j < |es| ==> es[j].first < numPoints && es[j].second < numPoints)
            && (r.Ok? ==> r.value == es)
  {
    var recs := seq(|es|, j requires 0 <= j < |es| => EdgeRecord(es[j]));
    assert forall j :: 0 <= j < |es| ==> recs[j] == EdgeRecord(es[j]);
  }

  /** Face lines: one per node, then marker, global id, first and second
      adjacent element identity, first and second adjacent element position,
      flag (at line `F + 6`). */
  function FaceRecord(f: Face): seq<u32>
  {
    f.nodes + [f.marker, f.id, f.firstAdjacentIdentity, f.secondAdjacentIdentity,
               f.firstAdjacentPosition, f.secondAdjacentPosition, f.flag]
  }

  predicate FaceRefsValid(rec: seq<u32>, faceNodes: nat, numPoints: nat)
    requires |rec| == 7 + faceNodes
  {
    RefsBelow(rec[..faceNodes], numPoints)
  }

  function FaceOf(rec: seq<u32>, faceNodes: nat): Face
    requires |rec| == 7 + faceNodes
  {
    var f := faceNodes;
    Face(rec[..f], rec[f], rec[f + 1], rec[f + 2], rec[f + 3], rec[f + 4], rec[f + 5], rec[f + 6])
  }

  /** Rebuilds the faces; every node must resolve to a point of the part. */
  function DecodeFaces(recs: seq<seq<u32>>, faceNodes: nat, numPoints: nat): (r: Result<seq<Face>>)
    requires forall j :: 0 <= j < |recs| ==> |recs[j]| == 7 + faceNodes
    ensures r.Ok? <==> forall j :: 0 <= j < |recs| ==> FaceRefsValid(recs[j], faceNodes, numPoints)
    ensures r.Err? ==> r.error == DanglingPointRef
    ensures r.Ok? ==> |r.value| == |recs|
    ensures r.Ok? ==> forall j :: 0 <= j < |recs| ==> FaceRecord(r.value[j]) == recs[j]
    ensures r.Ok? ==> forall j :: 0 <= j < |recs| ==>
              |r.value[j].nodes| == faceNodes && RefsBelow(r.value[j].nodes, numPoints)
  {
    if forall j :: 0 <= j < |recs| ==> FaceRefsValid(recs[j], faceNodes, numPoints) then
      var fs := seq(|recs|, j requires 0 <= j < |recs| => FaceOf(recs[j], faceNodes));
      assert forall j :: 0 <= j < |recs| ==> FaceRecord(fs[j]) == recs[j] by {
        forall j | 0 <= j < |recs|
          ensures FaceRecord(fs[j]) == recs[j]
        {
          assert FaceRecord(fs[j]) == recs[j][..faceNodes] + recs[j][faceNodes..];
        }
      }
      Ok(fs)
    else Err(DanglingPointRef)
  }

  /** Decoding face records of `F`-node faces succeeds exactly when every
      node is below the point count, and then gives the faces back. */
  lemma FacesRoundTrip(fs: seq<Face>, faceNodes: nat, numPoints: nat)
    requires forall j :: 0 <= j < |fs| ==> |fs[j].nodes| == faceNodes
    ensures var recs := seq(|fs|, j requires 0 <= j < |fs| => FaceRecord(fs[j]));
            var r := DecodeFaces(recs, faceNodes, numPoints);
            && (r.Ok? <==> forall j :: 0 <= j < |fs| ==> RefsBelow(fs[j].nodes, numPoints))
            && (r.Ok? ==> r.value == fs)
  {
    var recs := seq(|fs|, j requires 0 <= j < |fs| => FaceRecord(fs[j]));
    forall j | 0 <= j < |fs|
      ensures recs[j][..faceNodes] == fs[j].nodes
    {
    }
    var r := DecodeFaces(recs, faceNodes, numPoints);
    if r.Ok? {
      forall j | 0 <= j < |fs|
        ensures r.value[j] == fs[j]
      {
        var g := r.value[j];
        assert FaceRecord(g) == FaceRecord(fs[j]);
        assert g.nodes == FaceRecord(g)[..faceNodes];
      }
    }
  }

  /** Element lines: one per node, then marker, global id, flag. */
  function ElementRecord(e: Element): seq<u32>
  {
    e.nodes + [e.marker, e.id, e.flag]
  }

  predicate ElementRefsValid(rec: seq<u32>, elementNodes: nat, numPoints: nat)
    requires |rec| == 3 + elementNodes
  {
    RefsBelow(rec[..elementNodes], numPoints)
  }

  function ElementOf(rec: seq<u32>, elementNodes: nat): Element
    requires |rec| == 3 + elementNodes
  {
    var e := elementNodes;
    Element(rec[..e], rec[e], rec[e + 1], rec[e + 2])
  }

  /** Rebuilds the elements; every node must resolve to a point of the
      part. */
  function DecodeElements(recs: seq<seq<u32>>, elementNodes: nat, numPoints: nat): (r: Result<seq<Element>>)
    requires forall j :: 0 <= j < |recs| ==> |recs[j]| == 3 + elementNodes
    ensures r.Ok? <==> forall j :: 0 <= j < |recs| ==> ElementRefsValid(recs[j], elementNodes, numPoints)
    ensures r.Err? ==> r.error == DanglingPointRef
    ensures r.Ok? ==> |r.value| == |recs|
    ensures r.Ok? ==> forall j :: 0 <= j < |recs| ==> ElementRecord(r.value[j]) == recs[j]
    ensures r.Ok? ==> forall j :: 0 <= j < |recs| ==>
              |r.value[j].nodes| == elementNodes && RefsBelow(r.value[j].nodes, numPoints)
  {
    if forall j :: 0 <= j < |recs| ==> ElementRefsValid(recs[j], elementNodes, numPoints) then
      var es := seq(|recs|, j requires 0 <= j < |recs| => ElementOf(recs[j], elementNodes));
      assert forall j :: 0 <= j < |recs| ==> ElementRecord(es[j]) == recs[j] by {
        forall j | 0 <= j < |recs|
          ensures ElementRecord(es[j]) == recs[j]
        {
          assert ElementRecord(es[j]) == recs[j][..elementNodes] + recs[j][elementNodes..];
        }
      }
      Ok(es)
    else Err(DanglingPointRef)
  }

  /** Decoding element records of `E`-node elements succeeds exactly when
      every node is below the point count, and then gives the elements
      back. */
  lemma ElementsRoundTrip(es: seq<Element>, elementNodes: nat, numPoints: nat)
    requires forall j :: 0 <= j < |es| ==> |es[j].nodes| == elementNodes
    ensures var recs := seq(|es|, j requires 0 <= j < |es| => ElementRecord(es[j]));
            var r := DecodeElements(recs, elementNodes, numPoints);
            && (r.Ok? <==> forall j :: 0 <= j < |es| ==> RefsBelow(es[j].nodes, numPoints))
            && (r.Ok? ==> r.value == es)
  {
    var recs := seq(|es|, j requires 0 <= j < |es| => ElementRecord(es[j]));
    forall j | 0 <= j < |es|
      ensures recs[j][..elementNodes] == es[j].nodes
    {
    }
    var r := DecodeElements(recs, elementNodes, numPoints);
    if r.Ok? {
      forall j | 0 <= j < |es|
        ensures r.value[j] == es[j]
      {
        var g := r.value[j];
        assert ElementRecord(g) == ElementRecord(es[j]);
        assert g.nodes == ElementRecord(g)[..elementNodes];
      }
    }
  }
}
