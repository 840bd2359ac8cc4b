/** The container both sides agree on: its six tables. The writer produces
    one, the reader consumes one. */
module Containers {
  import opened Mesh
  import opened Hyperslab

  /** The six tables of a container. `pointIds` and `pointCoords` share
      one shape. */
  datatype Container = Container(stats: Table<u32>, pointIds: Table<u32>,
                                 pointCoords: Table<Float64>, edges: Table<u32>,
                                 faces: Table<u32>, elements: Table<u32>)
  {
    predicate Valid()
    {
      stats.Valid() && pointIds.Valid() && pointCoords.Valid() &&
      edges.Valid() && faces.Valid() && elements.Valid()
    }
  }
}
