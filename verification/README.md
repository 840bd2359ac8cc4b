# Offline mesh-partition container: layout, packing and round trip

This project models the part of LifeV's `PartitionIO` that stores the N parts
of a partitioned mesh in one container of six two-dimensional tables, and
reads one part back on each rank. The model has two halves:

- `write`: a stats pass, then the point, edge, face and element passes;
- `read`: the same five passes, on one rank.

The HDF5 and MPI calls are modelled only as what they compute:

- a table is a rectangular grid of cells;
- `writeData` copies a row-major memory buffer into a rectangular block
  (a hyperslab, given by an offset and a count);
- `readData` copies such a block out again.

What remains is the arithmetic of the layout and the indexing of the packed
buffers.

Every table has a partition axis and an entity axis:

- The partition axis holds `slab` consecutive lines per part. It is the row
  axis, or the column axis when the container is transposed.
- The entity axis is as wide as the largest part.
- Slab sizes: 1 for stats (15 counters wide), 3 for point ids and for point
  coordinates, 5 for edges, `7 + F` for faces, `3 + E` for elements. F and E
  are the node counts of a face and of an element.

The writer reuses one integer scratch buffer for every part and every pass.
It resizes the buffer, which keeps the old prefix, and overwrites only the
cells of the part's own entities. The model threads this buffer through all
passes and proves two things about it:

- padding cells hold stale data, not zeros;
- the reader never looks at padding cells.

Modules:

| module | file | what it holds |
|---|---|---|
| `Mesh` | `mesh.dfy` | 32-bit values, points, edges, faces, elements, counters, mesh parts, well-formedness |
| `Results` | `results.dfy` | read errors and the `Result` type |
| `Layout` | `layout.dfy` | table shapes, hyperslab counts and offsets, packed indices |
| `Hyperslab` | `hyperslab.dfy` | tables, `writeData`/`readData` as block copies, slab read-back |
| `Packing` | `packing.dfy` | the packing loop, unpacking, padding |
| `Codec` | `codec.dfy` | the field records of each entity kind and their decoding |
| `Containers` | `container.dfy` | the six tables of a container |
| `Writer` | `writer.dfy` | running maxima and the five write passes |
| `Reader` | `reader.dfy` | the five read passes, the read as written and the checked read |
| `RoundTrip` | `roundtrip.dfy` | write then read gives every rank its own part |
| `Arith` | `arith.dfy` | multiplication and row-major address facts |

## Model

All source paths are in `lifev/core/filter/PartitionIO.hpp`.

| member | source | states |
|---|---|---|
| Layout.SlabAddressing | lifev/core/filter/PartitionIO.hpp:564-622 | Part i's hyperslab count is (slab, width), or (width, slab) when transposed. Its offset is i*slab on the partition axis and 0 on the entity axis. It lies inside the (slab*N x width) table exactly when i < N. |
| Layout.AllSlabsInside | lifev/core/filter/PartitionIO.hpp:591-625 | The slab of every part i < N lies inside the table the pass created. |
| Layout.SlabsDisjoint | lifev/core/filter/PartitionIO.hpp:604-624 | The hyperslabs of two different parts share no cell, for any table shape and either orientation. |
| Layout.SlabsCoverTable | lifev/core/filter/PartitionIO.hpp:564-625 | Every cell of a table of N slabs lies in the slab of some part below N. |
| Layout.SlabArea | lifev/core/filter/PartitionIO.hpp:488-502 | The hyperslab count covers slab times the entity-axis extent, which is the size the scratch buffer is resized to. |
| Layout.PackIndex | lifev/core/filter/PartitionIO.hpp:504-536 | For entity j < width and field k < slab, the packed index (k*stride+j, or stride*j+k when transposed) lies below slab*width, the buffer size. |
| Layout.SlotOfPackIndex | lifev/core/filter/PartitionIO.hpp:590-620 | Distinct (entity, field) pairs get distinct packed indices: the pair is recovered from its index. |
| Layout.PackIndexOfSlot | lifev/core/filter/PartitionIO.hpp:589-620 | Every buffer position is the packed index of exactly the (entity, field) pair it belongs to. |
| Layout.PackIndexIsRowMajor | lifev/core/filter/PartitionIO.hpp:488-496 | The packed index is the row-major address of the field's cell in a memory block shaped like the hyperslab count. Field k sits on row k without transpose and on column k with it. |
| Layout.FaceMarkerIndexAgrees | lifev/core/filter/PartitionIO.hpp:1157 | The transposed face reader takes the marker from (7+F)*j+F. That is the packed index stride*j+F, because the transposed stride of the face table is 7+F. |
| Hyperslab.NewTable | lifev/core/filter/PartitionIO.hpp:480-486 | A newly created dataset has the requested shape and every cell holds the fill value. |
| Hyperslab.ReadData | lifev/core/filter/PartitionIO.hpp:1267-1281 | `readData` fills a buffer of the hyperslab count's size. A selection reaching outside the table leaves the buffer as it was. Inside the table, BlockCell and ReadAfterWrite give the cells it returns. |
| Hyperslab.BlockCell | lifev/core/filter/PartitionIO.hpp:1277-1280 | Memory cell (a, b) of a read block holds table cell (offset.rows+a, offset.cols+b). |
| Hyperslab.WriteData | lifev/core/filter/PartitionIO.hpp:1261-1264 | Writing a block keeps the table's shape and every cell outside the block. |
| Hyperslab.WrittenCell | lifev/core/filter/PartitionIO.hpp:1261-1264 | Memory cell (a, b) of the written buffer lands in table cell (offset.rows+a, offset.cols+b). |
| Hyperslab.ReadAfterWrite | lifev/core/filter/PartitionIO.hpp:1252-1280 | Reading back the block just written returns the written buffer, whatever the receiving buffer held. |
| Hyperslab.ReadAfterDisjointWrite | lifev/core/filter/PartitionIO.hpp:1252-1280 | Writing one block leaves what a disjoint block reads unchanged. |
| Hyperslab.WriteSlabs | lifev/core/filter/PartitionIO.hpp:592-607 | Writing the packed buffer of each part in turn at its own offset keeps the table's shape; SlabReadBack states what each slab then holds. |
| Hyperslab.SlabReadBack | lifev/core/filter/PartitionIO.hpp:591-626 | After every part's slab is written, reading slab r returns exactly buffer r: later parts never overwrite it. |
| Packing.Resize | lifev/core/filter/PartitionIO.hpp:589 | A resize to n keeps the first n old cells and fills the cells it adds. |
| Packing.Pack | lifev/core/filter/PartitionIO.hpp:589-602 | Packing a part gives a buffer of slab times width cells. PackPlacesFields and PackKeepsPadding state where each field and each padding cell lands. |
| Packing.PackPlacesFields | lifev/core/filter/PartitionIO.hpp:591-620 | Field k of entity j ends up at its packed index. |
| Packing.PackKeepsPadding | lifev/core/filter/PartitionIO.hpp:589-602 | A cell of no entity of the part keeps the previous buffer's value, or 0 if the resize added it. Padding is not cleared. |
| Packing.PackEmptyRepeatsPrevious | lifev/core/filter/PartitionIO.hpp:589-607 | A part without entities is written with the previous part's buffer unchanged. |
| Packing.PackBuffer | lifev/core/filter/PartitionIO.hpp:668-690 | The writer's nested loop over entities and fields produces exactly the specified packed buffer. |
| Packing.UnpackPack | lifev/core/filter/PartitionIO.hpp:1045-1068 | Unpacking a packed buffer with the part's own count and the same orientation returns the part's records, whatever the scratch buffer held before packing. |
| Packing.Unpack | lifev/core/filter/PartitionIO.hpp:1047-1068 | Unpacking gives count records of slab fields each; UnpackPack makes it the inverse of Pack on the part's own entities. |
| Packing.UnpackIgnoresPadding | lifev/core/filter/PartitionIO.hpp:1047 | Two buffers that agree on the cells of the first count entities unpack to the same records. |
| Packing.PackAll | lifev/core/filter/PartitionIO.hpp:591-607 | Part i's buffer is packed on top of part i-1's buffer; the first is packed on top of the incoming scratch buffer. |
| Packing.PackAllRoundTrip | lifev/core/filter/PartitionIO.hpp:591-626 | Each part's records survive packing in its own buffer despite the carried-over contents. |
| Codec.StatsRecord | lifev/core/filter/PartitionIO.hpp:421-445 | A part's stats record has 15 entries; StatsRoundTrip and RoundTrip.StatsLineWritten give their meaning. |
| Codec.DecodeStats | lifev/core/filter/PartitionIO.hpp:887-913 | The decoded counts and counters, written back in line order, are entries 2 to 14 of the stats line; entries 0 and 1 are not used. |
| Codec.StatsRoundTrip | lifev/core/filter/PartitionIO.hpp:887-913 | The record starts with N and 0. The reader recovers the part's point, edge, face and volume counts from entries 2, 7, 10 and 13, and the other counters from the remaining entries. |
| Codec.DecodePoints | lifev/core/filter/PartitionIO.hpp:971-995 | The rebuilt points carry the marker, id and flag of the integer lines and x, y, z of the coordinate lines, in order. |
| Codec.PointsRoundTrip | lifev/core/filter/PartitionIO.hpp:505-536 | Decoding the point records the writer produces gives the points back. |
| Codec.DecodeEdges | lifev/core/filter/PartitionIO.hpp:1046-1068 | Decoding succeeds exactly when both end points of every edge are below the point count; otherwise the error is a dangling reference. On success each edge re-encodes to its record. |
| Codec.EdgesRoundTrip | lifev/core/filter/PartitionIO.hpp:591-620 | Decoding edge records succeeds exactly when the edges' end points are below the point count, and then gives the edges back. |
| Codec.DecodeFaces | lifev/core/filter/PartitionIO.hpp:1118-1164 | Decoding succeeds exactly when every face node is below the point count. On success each face has F nodes and re-encodes to its record: nodes, marker, id, two adjacent identities, two adjacent positions, and the flag at field F+6. |
| Codec.FacesRoundTrip | lifev/core/filter/PartitionIO.hpp:668-718 | Decoding the records of F-node faces succeeds exactly when their nodes are below the point count, and then gives the faces back. |
| Codec.DecodeElements | lifev/core/filter/PartitionIO.hpp:1217-1245 | Decoding succeeds exactly when every element node is below the point count. On success each element has E nodes and re-encodes to nodes, marker, id and flag. |
| Codec.ElementsRoundTrip | lifev/core/filter/PartitionIO.hpp:766-800 | Decoding the records of E-node elements succeeds exactly when their nodes are below the point count, and then gives the elements back. |
| Writer.RunningMaxima | lifev/core/filter/PartitionIO.hpp:428-444 | The running maxima never fall below the maxima the writer started with; RunningMaximaBounds states that they are the largest counts. |
| Writer.FreshMaximaAreLargestCounts | lifev/core/filter/PartitionIO.hpp:308-311 | For a writer fresh from the full constructor or `setup`, each maximum after the stats loop is the largest count of its kind over the parts, and 0 when there are no parts. |
| Writer.RunningMaximaBounds | lifev/core/filter/PartitionIO.hpp:422-445 | After the stats loop, each maximum is at least its initial value and at least every part's count, and it equals either its initial value or some part's count. |
| Writer.RunningMaximaDominate | lifev/core/filter/PartitionIO.hpp:428-444 | The four maxima bound each part's point, edge, face and volume counts. |
| Writer.WriteStats | lifev/core/filter/PartitionIO.hpp:391-464 | The stats table is N x 15, or 15 x N when transposed. RoundTrip.StatsLineWritten states what each line holds. |
| Writer.WriteTable | lifev/core/filter/PartitionIO.hpp:588-626 | One entity pass creates a (slab*N) x width table, or width x (slab*N) when transposed. |
| Writer.PackedSlabsFit | lifev/core/filter/PartitionIO.hpp:602-606 | Each packed buffer has the size of the hyperslab count, and the slab of every part lies inside the new table. |
| Writer.WritePoints | lifev/core/filter/PartitionIO.hpp:467-556 | The point id table and the point coordinate table share the shape 3N x maxNumPoints. |
| Writer.WriteEdges | lifev/core/filter/PartitionIO.hpp:559-633 | The edge table is 5N x maxNumEdges. |
| Writer.WriteFaces | lifev/core/filter/PartitionIO.hpp:636-731 | The face table is (7+F)N x maxNumFaces. |
| Writer.WriteElements | lifev/core/filter/PartitionIO.hpp:734-813 | The element table is (3+E)N x maxNumElements. |
| Writer.WritePasses | lifev/core/filter/PartitionIO.hpp:335-349 | The five passes in order produce the six tables with their shapes, each entity table as wide as its maximum. |
| Writer.Write | lifev/core/filter/PartitionIO.hpp:335-349 | `write` on well-formed parts gives six tables whose entity axes are the running maxima over the parts, starting from the maxima the writer object carried. |
| Reader.SlabBuffer | lifev/core/filter/PartitionIO.hpp:1023-1033 | The buffer a read pass fills has slab times the table width cells. It holds the rank's block when that block lies inside the table, and the resized scratch buffer otherwise. |
| Reader.ReadStatsPass | lifev/core/filter/PartitionIO.hpp:845-913 | Reading stats fails exactly when a stats line is shorter than 15. Otherwise it decodes the rank's line. |
| Reader.ReadPointsPass | lifev/core/filter/PartitionIO.hpp:917-997 | Reading points fails exactly when the point count exceeds the table width. Otherwise point j takes fields j of the rank's integer and coordinate slabs, both read with the integer table's count and offset. |
| Reader.ReadEdgesPass | lifev/core/filter/PartitionIO.hpp:1000-1069 | An edge count wider than the table is an error. On success there are exactly numEdges edges, every end point is below the point count, and edge j re-encodes to field j of the rank's slab. |
| Reader.FaceFieldIndex | lifev/core/filter/PartitionIO.hpp:1118-1162 | The face loop reads every face field at its packed index. |
| Reader.FaceRecordsAt | lifev/core/filter/PartitionIO.hpp:1118-1164 | The records the face loop assembles are the general unpacking of the slab. |
| Reader.ReadFacesPass | lifev/core/filter/PartitionIO.hpp:1072-1168 | A face count wider than the table is an error. On success there are exactly numFaces faces, each with F nodes below the point count, and face j re-encodes to field j of the rank's slab. |
| Reader.ReadElementsPass | lifev/core/filter/PartitionIO.hpp:1171-1249 | An element count wider than the table is an error. On success there are exactly numElements elements, each with E nodes below the point count, and element j re-encodes to field j of the rank's slab. |
| Reader.ReadPartAsWritten | lifev/core/filter/PartitionIO.hpp:352-367 | `read` without a rank check never reports a bad rank. Any part it returns is well formed. |
| Reader.ReadPart | lifev/core/filter/PartitionIO.hpp:352-367 | The checked read reports a bad rank exactly when the container holds no stats slab for the rank. Otherwise it agrees with the read as written, and any part it returns is well formed. |
| Reader.OutOfRangeRankReadsEmptyPart | lifev/core/filter/PartitionIO.hpp:869-878 | With a fresh reader, a rank beyond the stored parts silently receives an empty part from the read as written. The checked read reports the rank. |
| RoundTrip.ReaderSelectsWriterSlab | lifev/core/filter/PartitionIO.hpp:1024-1033 | The reader derives count and offset from the shape of the table it finds, and receives exactly the buffer the writer packed for part r. |
| RoundTrip.TableRoundTrip | lifev/core/filter/PartitionIO.hpp:1045-1068 | After one entity pass, rank r unpacks part r's records with its own count, whatever either scratch buffer held. |
| RoundTrip.StatsLineWritten | lifev/core/filter/PartitionIO.hpp:421-457 | Line r of the written stats table, read into any scratch buffer, is part r's 15-entry record: entry 0 is N and entry 1 is 0. |
| RoundTrip.StatsReadBack | lifev/core/filter/PartitionIO.hpp:869-913 | Rank r reads part r's counts and counters from the written stats table. |
| RoundTrip.PointsReadBack | lifev/core/filter/PartitionIO.hpp:944-995 | Rank r reads back part r's points: marker, id, flag and x, y, z. |
| RoundTrip.EdgesReadBack | lifev/core/filter/PartitionIO.hpp:1024-1068 | Rank r reads back part r's edges, provided their end points are points of the part. |
| RoundTrip.FacesReadBack | lifev/core/filter/PartitionIO.hpp:1096-1164 | Rank r reads back part r's faces, provided their nodes are points of the part. |
| RoundTrip.FacePassDecodes | lifev/core/filter/PartitionIO.hpp:1118-1164 | A face slab holding the records of some faces first reads back as those faces. |
| RoundTrip.ElementsReadBack | lifev/core/filter/PartitionIO.hpp:1195-1245 | Rank r reads back part r's elements, provided their nodes are points of the part. |
| RoundTrip.ElementPassDecodes | lifev/core/filter/PartitionIO.hpp:1217-1245 | An element slab holding the records of some elements first reads back as those elements. |
| RoundTrip.WriteThenRead | lifev/core/filter/PartitionIO.hpp:335-367 | For well-formed parts, every rank r < N reads back exactly part r. This holds for any carried maxima and any contents of the writer's and the reader's scratch buffers. |
| RoundTrip.WriteThenReadBeyondParts | lifev/core/filter/PartitionIO.hpp:352-367 | For a rank ≥ N, the checked read reports the rank, and the read as written returns an empty part. |

## Left out

- HDF5 and MPI machinery is not modelled: file creation and opening, dataset and dataspace handles, collective transfer lists, the communicator cast. `writeData` and `readData` are modelled as block copies. A selection outside the table is modelled as a transfer that leaves the buffer unchanged, since the code ignores the returned status.
- The mesh objects' internals are not modelled: `addPoint`/`addEdge`/`addFace`/`addVolume`, the reserve and set-count calls, `setLinkSwitch`, `updateElementEdges`/`updateElementFaces`. A mesh part is sequences of records plus its counters. A point reference is its local id.
- The rank, the file name and the transpose flag are plain parameters.
- The carried maxima are a parameter of `Write`, so any starting value is covered. The full constructor (lines 308-311) and `setup` (lines 325-328) set them to 0. The default constructor (line 181) leaves them uninitialised. `write` never resets them.
- Reader.ReadPointsPass: the coordinate scratch buffer is taken as empty on entry, because both passes that use it resize it to 0 on exit.
- The writer and the reader are assumed to agree on F, E and the transpose flag. The reader takes the slab sizes from its own mesh type, and the model does not describe reading a container written with different ones.
- Writer.Write: requires every part to be well formed (32-bit counts; every edge, face and element node a local id of the part; F and E nodes). The mesh library guarantees this for real meshes, and the writer itself checks nothing.
- Unsigned 32-bit wrap-around is not modelled; the model's integers are unbounded. This concerns the `UInt` table extents `3 * M_numParts` (line 474), `5 * M_numParts` (line 565), `(7 + M_faceNodes) * M_numParts` (line 642) and `(3 + M_elementNodes) * M_numParts` (line 740), the `UInt` packed indices `k * stride + j` and `stride * j + k` (lines 509-536, 595-619, 673-717, 771-799), and `M_numParts = M_meshPartsOut->size()` (line 338), which truncates. The hyperslab offsets `i * currentCount[0]` are 64-bit `hsize_t` products.
- Where the code indexes out of bounds, the model reports its own error instead of modelling the undefined behaviour:
  - a stats line shorter than 15 is `StatsTooShort`;
  - a stored count wider than the table is `CountExceedsTable`;
  - a stored point reference at or above the point count is `DanglingPointRef`.
- Padding cells are not claimed to be zero. `PackKeepsPadding` states what they do hold.
- The class comment says edges use three consecutive rows and elements use 2 + E rows. The model follows the code, which uses 5 and 3 + E.
- Tables with no parts, or with a maximum of 0, are modelled as empty grids. The I/O library's treatment of zero-sized datasets is not modelled.

## Findings

| source | as written | input that shows it | evidently intended | confidence | as-written member | corrected member |
|---|---|---|---|---|---|---|
| lifev/core/filter/PartitionIO.hpp:869-878 | `readStats` (and every later pass) selects the slab at the reader's rank without checking it against the number of stored parts. Assuming the I/O library rejects the out-of-extent selection on the calling rank, the ignored status leaves the buffer's zero fill, so the rank gets zero counts and an empty part. Under the collective transfer list (lines 864-865) the read might block instead. | A container written for N = 2 parts, read on rank 2 by a fresh reader object | A rank without a slab is reported as an error instead of receiving an empty mesh part | not executed; medium, depends on how the I/O library fails an out-of-extent collective read | Reader.OutOfRangeRankReadsEmptyPart | Reader.ReadPart |
