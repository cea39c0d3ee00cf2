/**
 * The SurfaceMesh operations of the Python binding (SurfaceMesh.cpp) that
 * carry logic of their own: the bulk export to_ndarray, correctNormals,
 * and the counted coarsening loops coarse_flat and coarse_dense.
 *
 * The mesh is an object whose three levels are sequences in the order the
 * mesh iterates them.  Each method is proved against the value-level
 * definitions of MeshSpec.
 */
module SurfaceMeshBinding {
  import opened MeshSpec

  /**
   * std::map::operator[] on the renumbering map: the stored index of the
   * key, after inserting the key with the value-initialised 0 when absent.
   * The insertion never changes what any later read returns.
   */
  method Subscript(sigma: map<int, nat>, key: int) returns (value: nat, sigma': map<int, nat>)
    ensures key in sigma' && value == sigma'[key]
    ensures key in sigma ==> sigma' == sigma && value == sigma[key]
    ensures key !in sigma ==> sigma' == sigma[key := 0] && value == 0
    ensures forall n :: Lookup(sigma', n) == Lookup(sigma, n)
  {
    sigma' := sigma;
    if key !in sigma' {
      sigma' := sigma'[key := 0];
    }
    value := sigma'[key];
  }

  class SurfaceMesh {
    var vertices: seq<Vertex>
    var edges: seq<Edge>
    var faces: seq<Face>
    /** The argument triples of every call to the coarsening step so far. */
    ghost var coarseLog: seq<CoarseArgs>

    /** The mesh as a value. */
    function Data(): MeshData
      reads this
    {
      MeshData(vertices, edges, faces)
    }

    /** A mesh holding the given levels (as left by a sequence of inserts). */
    constructor (vs: seq<Vertex>, es: seq<Edge>, fs: seq<Face>)
      ensures vertices == vs && edges == es && faces == fs && coarseLog == []
    {
      vertices, edges, faces := vs, es, fs;
      coarseLog := [];
    }

    /**
     * to_ndarray: the (nVertices, 3) coordinates, the (nEdges, 2) edge
     * indices and the (nFaces, 3) face indices, vertices renumbered by
     * Sigma.  The mesh is only read.
     */
    method ToNdarray() returns (coords: NdArray<real>, edgeIdx: NdArray<int>, faceIdx: NdArray<int>)
      ensures coords == NdArray(|vertices|, 3, Flatten(CoordRows(vertices)))
      ensures edgeIdx == NdArray(|edges|, 2, Flatten(EdgeRows(edges, Sigma(vertices))))
      ensures faceIdx == NdArray(|faces|, 3, Flatten(FaceRows(faces, Sigma(vertices))))
      ensures WellShaped(coords) && WellShaped(edgeIdx) && WellShaped(faceIdx)
    {
      var vbuf := new real[3 * |vertices|];
      var ebuf := new int[2 * |edges|];
      var fbuf := new int[3 * |faces|];
      var sigma := FillVertices(vbuf);
      sigma := FillEdges(ebuf, sigma);
      sigma := FillFaces(fbuf, sigma);
      coords := NdArray(|vertices|, 3, vbuf[..]);
      edgeIdx := NdArray(|edges|, 2, ebuf[..]);
      faceIdx := NdArray(|faces|, 3, fbuf[..]);
      ExportShapes(Data());
    }

    /** The vertex loop of to_ndarray: numbers the vertices and copies their coordinates. */
    method FillVertices(vbuf: array<real>) returns (sigma: map<int, nat>)
      requires vbuf.Length == 3 * |vertices|
      modifies vbuf
      ensures vbuf[..] == Flatten(CoordRows(vertices))
      ensures sigma == Sigma(vertices)
    {
      var rows := CoordRows(vertices);
      sigma := map[];
      var i := 0;
      while i < |vertices|
        invariant 0 <= i <= |vertices|
        invariant sigma == Sigma(vertices[..i])
        invariant vbuf[..3 * i] == Flatten(rows[..i])
      {
        var o := 3 * i;
        var v := vertices[i];
        sigma := sigma[v.name := i];
        vbuf[o] := v.position.x;
        vbuf[o + 1] := v.position.y;
        vbuf[o + 2] := v.position.z;
        assert vertices[..i + 1][..i] == vertices[..i];
        assert rows[..i + 1][..i] == rows[..i];
        assert vbuf[..o + 3] == vbuf[..o] + rows[i];
        i := i + 1;
      }
      assert vertices[..i] == vertices;
      assert rows[..i] == rows;
      assert vbuf[..] == vbuf[..3 * i];
    }

    /**
     * The edge loop of to_ndarray: row i is sigma of the i-th edge's names.
     * Reading sigma with operator[] inserts 0 for a name it does not hold.
     */
    method FillEdges(ebuf: array<int>, sigma0: map<int, nat>) returns (sigma: map<int, nat>)
      requires ebuf.Length == 2 * |edges|
      requires sigma0 == Sigma(vertices)
      modifies ebuf
      ensures ebuf[..] == Flatten(EdgeRows(edges, Sigma(vertices)))
      ensures forall n :: Lookup(sigma, n) == Lookup(Sigma(vertices), n)
    {
      var rows := EdgeRows(edges, sigma0);
      sigma := sigma0;
      var i := 0;
      while i < |edges|
        invariant 0 <= i <= |edges|
        invariant forall n :: Lookup(sigma, n) == Lookup(sigma0, n)
        invariant ebuf[..2 * i] == Flatten(rows[..i])
      {
        var o := 2 * i;
        var e := edges[i];
        var x: nat;
        x, sigma := Subscript(sigma, e.a);
        ebuf[o] := x;
        x, sigma := Subscript(sigma, e.b);
        ebuf[o + 1] := x;
        assert ebuf[..o + 2] == ebuf[..o] + rows[i];
        assert rows[..i + 1][..i] == rows[..i];
        i := i + 1;
      }
      assert rows[..i] == rows;
      assert ebuf[..] == ebuf[..2 * i];
    }

    /**
     * The face loop of to_ndarray: row i is sigma of the i-th face's names,
     * in name order when its orientation is 1 and reversed otherwise.
     */
    method FillFaces(fbuf: array<int>, sigma0: map<int, nat>) returns (sigma: map<int, nat>)
      requires fbuf.Length == 3 * |faces|
      requires forall n :: Lookup(sigma0, n) == Lookup(Sigma(vertices), n)
      modifies fbuf
      ensures fbuf[..] == Flatten(FaceRows(faces, Sigma(vertices)))
      ensures forall n :: Lookup(sigma, n) == Lookup(Sigma(vertices), n)
    {
      ghost var s := Sigma(vertices);
      var rows := FaceRows(faces, s);
      sigma := sigma0;
      var i := 0;
      while i < |faces|
        invariant 0 <= i <= |faces|
        invariant forall n :: Lookup(sigma, n) == Lookup(s, n)
        invariant fbuf[..3 * i] == Flatten(rows[..i])
      {
        var o := 3 * i;
        var f := faces[i];
        assert rows[i] == FaceRow(f, s);
        ghost var done := fbuf[..o];
        sigma := EmitFace(fbuf, o, f, sigma, s);
        assert fbuf[..o + 3] == done + rows[i] by {
          assert fbuf[..o + 3] == fbuf[..o] + fbuf[o..o + 3];
        }
        assert rows[..i + 1][..i] == rows[..i];
        i := i + 1;
      }
      assert rows[..i] == rows;
      assert fbuf[..] == fbuf[..3 * i];
    }

    /**
     * The body of the face loop: writes the face's row at offset o, in name
     * order for orientation 1 and reversed otherwise, reading sigma with
     * operator[].
     */
    static method EmitFace(fbuf: array<int>, o: nat, f: Face, sigma: map<int, nat>, ghost s: map<int, nat>)
      returns (sigma': map<int, nat>)
      requires o + 3 <= fbuf.Length
      requires forall n :: Lookup(sigma, n) == Lookup(s, n)
      modifies fbuf
      ensures forall n :: Lookup(sigma', n) == Lookup(s, n)
      ensures fbuf[..o] == old(fbuf[..o]) && fbuf[o..o + 3] == FaceRow(f, s)
      ensures fbuf[o + 3..] == old(fbuf[o + 3..])
    {
      var x0: nat, x1: nat, x2: nat;
      sigma' := sigma;
      if f.orientation == 1 {
        x0, sigma' := Subscript(sigma', f.n0);
        fbuf[o] := x0;
        x1, sigma' := Subscript(sigma', f.n1);
        fbuf[o + 1] := x1;
        x2, sigma' := Subscript(sigma', f.n2);
        fbuf[o + 2] := x2;
      } else {
        x0, sigma' := Subscript(sigma', f.n2);
        fbuf[o] := x0;
        x1, sigma' := Subscript(sigma', f.n1);
        fbuf[o + 1] := x1;
        x2, sigma' := Subscript(sigma', f.n0);
        fbuf[o + 2] := x2;
      }
      assert fbuf[o..o + 3] == [x0, x1, x2];
    }

    /**
     * correctNormals: when the volume (computed by the caller from this
     * mesh) is negative, every face orientation is multiplied by -1;
     * otherwise nothing changes.  Vertices and edges are never touched, and
     * the names-present invariant is kept.
     */
    method CorrectNormals(volume: real)
      modifies this`faces
      ensures vertices == old(vertices) && edges == old(edges)
      ensures faces == if volume < 0.0 then FlipAll(old(faces)) else old(faces)
      ensures NamesPresent(old(Data())) ==> NamesPresent(Data())
    {
      if volume < 0.0 {
        var i := 0;
        while i < |faces|
          invariant 0 <= i <= |faces| == |old(faces)|
          invariant forall k :: 0 <= k < i ==> faces[k] == Flip(old(faces)[k])
          invariant forall k :: i <= k < |faces| ==> faces[k] == old(faces)[k]
        {
          faces := faces[i := faces[i].(orientation := faces[i].orientation * -1)];
          i := i + 1;
        }
        if NamesPresent(old(Data())) {
          FlipAllKeepsNamesPresent(old(Data()));
        }
      }
    }

    /**
     * One call of the coarsening step coarseIT(mesh, rate, flatRate,
     * denseWeight), whose effect on the mesh is the caller-supplied `step`.
     */
    method CoarseIT(rate: real, flatRate: real, denseWeight: real, step: (MeshData, CoarseArgs) -> MeshData)
      modifies this
      ensures Data() == step(old(Data()), CoarseArgs(rate, flatRate, denseWeight))
      ensures coarseLog == old(coarseLog) + [CoarseArgs(rate, flatRate, denseWeight)]
    {
      var next := step(Data(), CoarseArgs(rate, flatRate, denseWeight));
      vertices, edges, faces := next.vertices, next.edges, next.faces;
      coarseLog := coarseLog + [CoarseArgs(rate, flatRate, denseWeight)];
    }

    /**
     * coarse_flat: niter calls of the step with (rate, 0.5, 0); none when
     * niter <= 0.  rate defaults to 0.016 and niter to 1.
     */
    method CoarseFlat(step: (MeshData, CoarseArgs) -> MeshData, rate: real := 0.016, niter: int := 1)
      modifies this
      ensures Data() == Iterate(step, old(Data()), FlatArgs(rate), Count(niter))
      ensures coarseLog == old(coarseLog) + Repeat(FlatArgs(rate), Count(niter))
    {
      var i := 0;
      while i < niter
        invariant 0 <= i <= Count(niter)
        invariant Data() == Iterate(step, old(Data()), FlatArgs(rate), i)
        invariant coarseLog == old(coarseLog) + Repeat(FlatArgs(rate), i)
      {
        CoarseIT(rate, 0.5, 0.0, step);
        i := i + 1;
      }
    }

    /**
     * coarse_dense: niter calls of the step with (rate, 0, 10); none when
     * niter <= 0.  rate defaults to 1.6 and niter to 1.
     */
    method CoarseDense(step: (MeshData, CoarseArgs) -> MeshData, rate: real := 1.6, niter: int := 1)
      modifies this
      ensures Data() == Iterate(step, old(Data()), DenseArgs(rate), Count(niter))
      ensures coarseLog == old(coarseLog) + Repeat(DenseArgs(rate), Count(niter))
    {
      var i := 0;
      while i < niter
        invariant 0 <= i <= Count(niter)
        invariant Data() == Iterate(step, old(Data()), DenseArgs(rate), i)
        invariant coarseLog == old(coarseLog) + Repeat(DenseArgs(rate), i)
      {
        CoarseIT(rate, 0.0, 10.0, step);
        i := i + 1;
      }
    }
  }
}
