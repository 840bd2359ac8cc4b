/** The mesh part as the partition container sees it: sequences of point,
    edge, face and element records plus the counters carried in the stats
    table. Local ids are positions in the owning part's point sequence. */
module Mesh {

  /** The container stores every id, marker, flag and counter as an
      unsigned 32-bit integer (`UInt` in the mesh library). */
  const MaxU32: nat := 0xFFFF_FFFF
  type u32 = x: nat | x <= MaxU32

  /** A 64-bit floating-point coordinate, kept as its bit pattern: the
      container only copies coordinates and never computes with them. */
  datatype Float64 = Float64(bits: bv64)

  /** Positive zero, the value a freshly grown coordinate buffer holds. */
  const Zero: Float64 := Float64(0)

  datatype Point = Point(marker: u32, id: u32, flag: u32,
                         x: Float64, y: Float64, z: Float64)

  /** An edge refers to its two end points by local id. */
  datatype Edge = Edge(first: u32, second: u32, marker: u32, id: u32, flag: u32)

  /** A face refers to its nodes by local id and records the identities and
      local positions of the (up to) two elements adjacent to it. */
  datatype Face = Face(nodes: seq<u32>, marker: u32, id: u32,
                       firstAdjacentIdentity: u32, secondAdjacentIdentity: u32,
                       firstAdjacentPosition: u32, secondAdjacentPosition: u32,
                       flag: u32)

  /** A volume element refers to its nodes by local id. */
  datatype Element = Element(nodes: seq<u32>, marker: u32, id: u32, flag: u32)

  /** The stats entries that are neither the part count nor an entity count:
      boundary and global counts the reader hands back to the mesh. */
  datatype Counters = Counters(boundaryPoints: u32, vertices: u32,
                               boundaryVertices: u32, globalVertices: u32,
                               boundaryEdges: u32, globalEdges: u32,
                               boundaryFaces: u32, globalFaces: u32,
                               globalVolumes: u32)

  const NoCounters: Counters := Counters(0, 0, 0, 0, 0, 0, 0, 0, 0)

  datatype MeshPart = MeshPart(points: seq<Point>, edges: seq<Edge>,
                               faces: seq<Face>, elements: seq<Element>,
                               counters: Counters)

  /** A part with no entities and all counters zero. */
  const EmptyPart: MeshPart := MeshPart([], [], [], [], NoCounters)

  /** The four entity kinds whose counts size the tables. */
  datatype Entity = Points | Edges | Faces | Elements

  function Count(part: MeshPart, kind: Entity): nat
  {
    match kind
    case Points => |part.points|
    case Edges => |part.edges|
    case Faces => |part.faces|
    case Elements => |part.elements|
  }

  predicate RefsBelow(refs: seq<u32>, numPoints: nat)
  {
    forall n :: 0 <= n < |refs| ==> refs[n] < numPoints
  }

  /** The entity counts fit the 32-bit counters of the stats table. */
  predicate CountsFit(part: MeshPart)
  {
    |part.points| <= MaxU32 && |part.edges| <= MaxU32 &&
    |part.faces| <= MaxU32 && |part.elements| <= MaxU32
  }

  /** What a mesh part must satisfy to be stored: its counts fit the 32-bit
      counters, every face has `faceNodes` nodes, every element
      `elementNodes` nodes, and every point reference is a local id of the
      part. */
  predicate WellFormed(part: MeshPart, faceNodes: nat, elementNodes: nat)
  {
    && CountsFit(part)
    && (forall j :: 0 <= j < |part.edges| ==>
          part.edges[j].first < |part.points| && part.edges[j].second < |part.points|)
    && (forall j :: 0 <= j < |part.faces| ==>
          |part.faces[j].nodes| == faceNodes && RefsBelow(part.faces[j].nodes, |part.points|))
    && (forall j :: 0 <= j < |part.elements| ==>
          |part.elements[j].nodes| == elementNodes && RefsBelow(part.elements[j].nodes, |part.points|))
  }
}
