# GAMer surface-mesh export and flat grid indexing, in Dafny

GAMer builds triangulated surface meshes on top of a simplicial-complex
engine (CASC). Its Python binding adds a few operations with their own logic.
This project models those operations, plus GAMer's 3D-to-flat index helper:

- **`to_ndarray`** walks the vertex, edge and face levels of a `SurfaceMesh`.
  It renumbers vertex names densely through a `std::map` called `sigma`.
  It fills three heap buffers: coordinates `(nVertices, 3)`, edge indices
  `(nEdges, 2)` and face indices `(nFaces, 3)`. A face whose `orientation`
  is exactly `1` is written in name order. Any other orientation is written
  reversed.
- **`correctNormals`** multiplies every face orientation by `-1` when the
  mesh's volume is negative.
- **`coarse_flat` / `coarse_dense`** call the coarsening step `coarseIT`
  `niter` times with fixed parameters: `(rate, 0.5, 0)` for the first and
  `(rate, 0, 10)` for the second.
- **`Vect2Index`** maps `(i, j, k)` in a `d0 x d1 x d2` grid to
  `k*d0*d1 + j*d0 + i`, so `i` is the innermost index.

Files:

- `flat_index.dfy` (module `FlatIndex`) covers `Vect2Index`. It defines the
  flat index on naturals (`FlatIndex.Vect2Index`), its inverse
  `Index2Vect`, and the size_t form `Vect2IndexWord`, which wraps modulo
  2^64 after each operation. The lemmas show that the map is a bijection
  between in-range cells and `0 .. d0*d1*d2-1`. They also prove the strides,
  show that the k-j-i loop order is the order of the flat index, and show
  that in-range cells never wrap.
- `mesh_spec.dfy` (module `MeshSpec`) holds the mesh as values and defines
  what the export computes:
  - `Sigma` is the renumbering.
  - `Lookup` is `std::map::operator[]`, which reads 0 for an absent key.
  - `CoordRows`, `EdgeRows` and `FaceRows` give the rows, and `Flatten`
    gives the row-major buffer.
  - `FlipAll` is the orientation flip, and `Repeat` / `Iterate` describe a
    counted loop.

  The lemmas state the properties of these definitions.
- `surface_mesh.dfy` (module `SurfaceMeshBinding`) defines the class
  `SurfaceMesh`. Its fields are sequences for the three levels, and its
  imperative methods mirror the binding's lambdas. Each method is proved
  against the definitions in `MeshSpec`.

A face is written in name order only when its orientation is exactly 1.
Every other value, 0 and -1 included, is written reversed
(SurfaceMesh.cpp:388-397), and `FaceRow` does the same. The code also reads `sigma` with
`operator[]`, which inserts 0 for a name it does not hold. The model keeps
this, so an edge or face naming a missing vertex is exported with index 0.
That index is in range unless the mesh has no vertices
(`MeshSpec.ExportedIndicesInRange`).

## Model

| member | source | states |
|---|---|---|
| `FlatIndex.Vect2Index` | include/gamer/gamer.h:59-84 | k*d0*d1 + j*d0 + i. When i < d0, i is the remainder modulo d0 and the quotient is k*d1 + j, so i is the innermost coordinate. |
| `FlatIndex.Origin` | include/gamer/gamer.h:82-84 | Cell (0, 0, 0) has flat index 0. |
| `FlatIndex.Strides` | include/gamer/gamer.h:63-84 | Incrementing i adds 1, incrementing j adds d0, and incrementing k adds d0*d1. |
| `FlatIndex.Vect2IndexBound` | include/gamer/gamer.h:74-84 | If i < d0, j < d1 and k < d2, the flat index is below d0*d1*d2. |
| `FlatIndex.DecodeEncode` | include/gamer/gamer.h:59-84 | Splitting the flat index of an in-range cell into (n % d0, (n / d0) % d1, n / (d0*d1)) gives the cell back. |
| `FlatIndex.Vect2IndexInjective` | include/gamer/gamer.h:79-84 | Two in-range cells with the same flat index are the same cell. |
| `FlatIndex.EncodeDecode` | include/gamer/gamer.h:59-84 | Every n < d0*d1*d2 decodes to an in-range cell that re-encodes to n. Together with the bound, the in-range cells cover exactly 0 .. d0*d1*d2-1. |
| `FlatIndex.LoopOrderIsIndexOrder` | include/gamer/gamer.h:63-84 | For in-range cells, a cell comes earlier in the k-j-i loop nest (i innermost) if and only if its flat index is smaller. |
| `FlatIndex.LoopStepAdvancesByOne` | include/gamer/gamer.h:63-84 | Each step of the loop nest raises the flat index by exactly 1, and stays in range unless it was the last cell. |
| `FlatIndex.Vect2IndexWord` | include/gamer/gamer.h:82-84 | The index computed with size_t arithmetic, wrapping after each * and +, is below 2^64. |
| `FlatIndex.NoWrapInRange` | include/gamer/gamer.h:82-84 | If d0*d1*d2 fits in a 64-bit size_t, the wrapping computation equals the exact flat index for every in-range cell. |
| `MeshSpec.Sigma` | pygamer/src/SurfaceMesh.cpp:363-371 | Every stored index is below nVertices, and the last vertex visited gets index nVertices-1 (a later vertex with the same name overwrites an earlier one). |
| `MeshSpec.Lookup` | pygamer/src/SurfaceMesh.cpp:378-396 | Reading `sigma[name]` gives what the map holds after inserting `name -> 0` when the name is absent. The result is a stored index or 0. |
| `MeshSpec.SigmaSpec` | pygamer/src/SurfaceMesh.cpp:363-371 | sigma's keys are exactly the vertex names. Each name maps to an index in [0, nVertices) that holds a vertex of that name, and never to an index below any position where the name occurs. |
| `MeshSpec.SigmaOfUnique` | pygamer/src/SurfaceMesh.cpp:363-371 | With unique vertex names, the i-th vertex visited gets index i. |
| `MeshSpec.SigmaInjective` | pygamer/src/SurfaceMesh.cpp:363-371 | Distinct vertex names get distinct indices, both in [0, nVertices). |
| `MeshSpec.LookupInRange` | pygamer/src/SurfaceMesh.cpp:363-396 | Reading sigma gives an index below nVertices when the name is a vertex name or the mesh has a vertex. For a vertex name, that index points back at a vertex of that name. |
| `MeshSpec.EdgeRow` | pygamer/src/SurfaceMesh.cpp:378-379 | An edge row has two entries, each a stored index or the default 0. |
| `MeshSpec.FaceRow` | pygamer/src/SurfaceMesh.cpp:387-397 | A face row has three entries, each a stored index or the default 0, with sigma of n1 in the middle whatever the orientation. |
| `MeshSpec.CoordLayout` | pygamer/src/SurfaceMesh.cpp:359-371 | The coordinate buffer has length 3*nVertices. Entries 3i, 3i+1 and 3i+2 are the x, y and z of the i-th vertex. |
| `MeshSpec.EdgeLayout` | pygamer/src/SurfaceMesh.cpp:360-381 | The edge buffer has length 2*nEdges. Entries 2i and 2i+1 are sigma of the i-th edge's first and second names. |
| `MeshSpec.FaceLayout` | pygamer/src/SurfaceMesh.cpp:361-399 | The face buffer has length 3*nFaces. Row i is sigma of (n0, n1, n2) when the orientation is 1, and of (n2, n1, n0) for any other orientation. |
| `MeshSpec.ExportShapes` | pygamer/src/SurfaceMesh.cpp:417-435 | The shapes (nVertices, 3), (nEdges, 2) and (nFaces, 3) each match the length of their buffer. |
| `MeshSpec.FaceRowMultiset` | pygamer/src/SurfaceMesh.cpp:387-397 | A face row's multiset of indices is {sigma n0, sigma n1, sigma n2} whatever the orientation. Orientation changes only the order. |
| `MeshSpec.FaceRowOpposite` | pygamer/src/SurfaceMesh.cpp:387-397 | The row for orientation 1 and the row for any other orientation are reverses of each other. |
| `MeshSpec.EdgeNameBack` | pygamer/src/SurfaceMesh.cpp:374-381 | If an edge's names are vertex names, its row holds indices in [0, nVertices), and looking them back up gives the edge's names in order. |
| `MeshSpec.FaceNameBack` | pygamer/src/SurfaceMesh.cpp:384-399 | If a face's names are vertex names, its row holds indices in [0, nVertices). Looking them back up gives (n0, n1, n2) for orientation 1 and (n2, n1, n0) otherwise. |
| `MeshSpec.ExportedIndicesInRange` | pygamer/src/SurfaceMesh.cpp:374-399 | If every edge and face name is a vertex name, or the mesh has at least one vertex, every entry of the edge and face buffers lies in [0, nVertices). |
| `MeshSpec.FlipWinding` | pygamer/src/SurfaceMesh.cpp:772-776 | Negating a face's orientation reverses its exported row exactly when the orientation is 1 or -1. Any other value, such as 0, is exported the same way before and after. |
| `MeshSpec.FlipAll` | pygamer/src/SurfaceMesh.cpp:774-775 | Flipping keeps the number of faces and every face's names, and a face has orientation 1 afterwards exactly when it had -1 before. |
| `MeshSpec.FlipAllInvolution` | pygamer/src/SurfaceMesh.cpp:774-775 | Flipping every face orientation twice restores the faces. |
| `MeshSpec.FlipAllKeepsNames` | pygamer/src/SurfaceMesh.cpp:774-775 | The flip keeps the number of faces and every face's names, and negates each orientation. |
| `MeshSpec.FlipAllKeepsNamesPresent` | pygamer/src/SurfaceMesh.cpp:772-776 | If every face name was a vertex name before the flip, it still is after. |
| `MeshSpec.Count` | pygamer/src/SurfaceMesh.cpp:650 | Equals the number of iterations of `for (int i = 0; i < niter; ++i)`, counted one at a time by `LoopRuns`. |
| `MeshSpec.RepeatSpec` | pygamer/src/SurfaceMesh.cpp:648-666 | The call log of a counted loop has exactly n entries, all equal to the fixed argument triple. |
| `MeshSpec.NoIterationsForNonPositive` | pygamer/src/SurfaceMesh.cpp:649-666 | When niter <= 0, the loop makes no calls and the mesh is unchanged. |
| `SurfaceMeshBinding.Subscript` | pygamer/src/SurfaceMesh.cpp:378-396 | `sigma[name]` returns the stored index, or inserts and returns 0 when the name is absent. Either way, no later read of the map changes. |
| `SurfaceMeshBinding.SurfaceMesh.ToNdarray` | pygamer/src/SurfaceMesh.cpp:355-436 | Returns the three arrays, with shapes (nVertices, 3), (nEdges, 2) and (nFaces, 3), equal to the flattened coordinate, edge and face rows under Sigma. It only reads the mesh. |
| `SurfaceMeshBinding.SurfaceMesh.FillVertices` | pygamer/src/SurfaceMesh.cpp:363-371 | The vertex loop leaves the coordinate rows in the buffer and returns sigma = Sigma(vertices). |
| `SurfaceMeshBinding.SurfaceMesh.FillEdges` | pygamer/src/SurfaceMesh.cpp:373-381 | The edge loop leaves the edge rows in the buffer. The zeros that operator[] inserts do not change any reading of sigma. |
| `SurfaceMeshBinding.SurfaceMesh.FillFaces` | pygamer/src/SurfaceMesh.cpp:383-399 | The face loop leaves the orientation-dependent face rows in the buffer. |
| `SurfaceMeshBinding.SurfaceMesh.EmitFace` | pygamer/src/SurfaceMesh.cpp:385-398 | One face-loop iteration writes that face's row at offset 3i and leaves every other entry of the buffer alone. |
| `SurfaceMeshBinding.SurfaceMesh.CorrectNormals` | pygamer/src/SurfaceMesh.cpp:771-777 | If the volume is below 0, every face orientation is negated; otherwise the faces are unchanged. Vertices and edges never change, and the names-present invariant is kept. |
| `SurfaceMeshBinding.SurfaceMesh.CoarseIT` | pygamer/src/SurfaceMesh.cpp:650 | One call of the coarsening step: the mesh becomes `step` applied to it with the given arguments, and the call is logged. |
| `SurfaceMeshBinding.SurfaceMesh.CoarseFlat` | pygamer/src/SurfaceMesh.cpp:648-652 | Applies the step exactly max(niter, 0) times, each time with (rate, 0.5, 0). rate defaults to 0.016 and niter to 1. |
| `SurfaceMeshBinding.SurfaceMesh.CoarseDense` | pygamer/src/SurfaceMesh.cpp:663-667 | Applies the step exactly max(niter, 0) times, each time with (rate, 0, 10). rate defaults to 1.6 and niter to 1. |

## Left out

- Vertex coordinates are `real` stand-ins for `double` / `REAL`. They are
  only copied, and no floating-point behaviour is modelled.
- SurfaceMeshBinding.SurfaceMesh.CorrectNormals: orientations are unbounded
  integers. The C `int` product `orientation * -1` overflows at INT_MIN,
  which is not modelled; in practice orientations are -1, 0 or 1.
- `getVolume` is not modelled. `CorrectNormals` takes the volume the
  caller computed for the current mesh as a parameter.
- `coarseIT` is not modelled. Its effect on the mesh is the caller-supplied
  function `step`, and the model records only how often it is called and
  with which arguments.
- The order in which the mesh iterates each level is whatever order the
  sequences hold. CASC's own iteration order is not part of this model.
- SurfaceMeshBinding.SurfaceMesh.ToNdarray: the indices are unbounded
  integers. GAMer's C++ code stores them through `int` (32 bits), so a mesh
  with more than 2^31-1 vertices would overflow. That case is not modelled.
- `FlatIndex.Vect2Index` is exact on naturals. 64-bit wrap-around is
  modelled only by `Vect2IndexWord`. For out-of-range cells, the model does
  not describe which values the wrap produces.
- The pybind11 plumbing is not modelled: the `py::capsule` deleters, the
  `py::array_t` stride setup, buffer ownership, `keep_alive` and stream
  redirection. These cover memory ownership and foreign-library glue.
- The other binding definitions in SurfaceMesh.cpp are not modelled. They
  only forward to CASC or GAMer code that is not part of this model:
  insert, remove, get and the iterators, `smoothMesh`, `coarse`,
  `getMeanCurvature`, `getGaussianCurvature`, `fillHoles`, `normalSmooth`,
  `translate`, `scale`, `flipNormals` and the orientation calls.
- python/src/TetMesh.cpp is not part of this model. It only forwards to
  CASC and TetMesh code that is not part of this model either.
- docs/src/conf.py is not part of this model. It is documentation build
  configuration.
