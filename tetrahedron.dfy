/**
 * Tetrahedron: four vertices, and the indexer that returns its four
 * triangular faces, ordered so that their normals face the same way.
 */
module Tetrahedra {
  import opened Results
  import opened Primitives3D
  import opened Triangles3D

  datatype Tetrahedron = Tetrahedron(V0: Point3D, V1: Point3D, V2: Point3D, V3: Point3D)
  {
    /** The vertex with the given index. */
    function Vertex(index: int): Point3D
      requires 0 <= index <= 3
    {
      if index == 0 then V0 else if index == 1 then V1 else if index == 2 then V2 else V3
    }

    /** The face with the given index, or null for an index outside [0, 3]. */
    function Face(index: int): (r: Option<Triangle3D>)
      ensures r.Some? <==> 0 <= index <= 3
      ensures r.Some? ==> r.value == Triangle3D(Vertex(FaceIndices(index)[0]), Vertex(FaceIndices(index)[1]), Vertex(FaceIndices(index)[2]))
    {
      if index == 0 then Some(Triangle3D(V2, V1, V0))
      else if index == 1 then Some(Triangle3D(V0, V1, V3))
      else if index == 2 then Some(Triangle3D(V1, V2, V3))
      else if index == 3 then Some(Triangle3D(V2, V0, V3))
      else None
    }

    /**
     * Six times the signed volume: the triple product of the edges from V0.
     * It is positive when V3 lies on the side of V0 V1 V2 that their
     * counter-clockwise normal points to.
     */
    function Orientation(): real
    {
      Vector3D.Between(V0, V1).CrossProduct(Vector3D.Between(V0, V2)).DotProduct(Vector3D.Between(V0, V3))
    }
  }

  /** The vertex indices of each face, in the order the indexer uses them. */
  function FaceIndices(index: int): seq<int>
    requires 0 <= index <= 3
  {
    if index == 0 then [2, 1, 0]
    else if index == 1 then [0, 1, 3]
    else if index == 2 then [1, 2, 3]
    else [2, 0, 3]
  }

  /** The vertex that a face leaves out. */
  function Omitted(index: int): int
    requires 0 <= index <= 3
  {
    if index == 0 then 3 else if index == 1 then 2 else if index == 2 then 0 else 1
  }

  /**
   * Each face uses three distinct vertices, all but the one it omits, and
   * different faces omit different vertices.
   */
  lemma FacesOmitOneVertex(index: int, other: int)
    requires 0 <= index <= 3 && 0 <= other <= 3
    ensures |FaceIndices(index)| == 3
    ensures forall k :: 0 <= k < 3 ==> 0 <= FaceIndices(index)[k] <= 3 && FaceIndices(index)[k] != Omitted(index)
    ensures FaceIndices(index)[0] != FaceIndices(index)[1] && FaceIndices(index)[1] != FaceIndices(index)[2]
         && FaceIndices(index)[0] != FaceIndices(index)[2]
    ensures Omitted(index) == Omitted(other) ==> index == other
  {
  }

  /** The faces that use a vertex. */
  function FacesOf(vertex: int): set<int>
  {
    set index | 0 <= index <= 3 && vertex in FaceIndices(index)
  }

  /** Every vertex is on exactly three faces: all but the one that omits it. */
  lemma EachVertexOnThreeFaces(vertex: int)
    requires 0 <= vertex <= 3
    ensures |FacesOf(vertex)| == 3
    ensures forall index :: 0 <= index <= 3 ==> (index in FacesOf(vertex) <==> Omitted(index) != vertex)
  {
    var omitting := if vertex == 0 then 2 else if vertex == 1 then 3 else if vertex == 2 then 1 else 0;
    assert FacesOf(vertex) == {0, 1, 2, 3} - {omitting};
  }

  // ---------------------------------------------------------------- orientation

  /** The height of the omitted vertex over a face, measured along the face's unnormalised normal. */
  function FaceHeight(face: Triangle3D, apex: Point3D): real
  {
    face.NormalVector().DotProduct(Vector3D.Between(face.V1, apex))
  }

  /** The triple product of face 0 (V2, V1, V0) against V3, with V0 at the origin and a, b, c the other vertices. */
  lemma Face0Product(a1: real, a2: real, a3: real, b1: real, b2: real, b3: real, c1: real, c2: real, c3: real)
    ensures Vector3D(a1 - b1, a2 - b2, a3 - b3).CrossProduct(Vector3D(-b1, -b2, -b3)).DotProduct(Vector3D(c1 - b1, c2 - b2, c3 - b3))
         == -Vector3D(a1, a2, a3).CrossProduct(Vector3D(b1, b2, b3)).DotProduct(Vector3D(c1, c2, c3))
  {
  }

  /** The triple product of face 1 (V0, V1, V3) against V2, with V0 at the origin and a, b, c the other vertices. */
  lemma Face1Product(a1: real, a2: real, a3: real, b1: real, b2: real, b3: real, c1: real, c2: real, c3: real)
    ensures Vector3D(a1, a2, a3).CrossProduct(Vector3D(c1, c2, c3)).DotProduct(Vector3D(b1, b2, b3))
         == -Vector3D(a1, a2, a3).CrossProduct(Vector3D(b1, b2, b3)).DotProduct(Vector3D(c1, c2, c3))
  {
  }

  /** The triple product of face 2 (V1, V2, V3) against V0, with V0 at the origin and a, b, c the other vertices. */
  lemma Face2Product(a1: real, a2: real, a3: real, b1: real, b2: real, b3: real, c1: real, c2: real, c3: real)
    ensures Vector3D(b1 - a1, b2 - a2, b3 - a3).CrossProduct(Vector3D(c1 - a1, c2 - a2, c3 - a3)).DotProduct(Vector3D(-a1, -a2, -a3))
         == -Vector3D(a1, a2, a3).CrossProduct(Vector3D(b1, b2, b3)).DotProduct(Vector3D(c1, c2, c3))
  {
  }

  /** The triple product of face 3 (V2, V0, V3) against V1, with V0 at the origin and a, b, c the other vertices. */
  lemma Face3Product(a1: real, a2: real, a3: real, b1: real, b2: real, b3: real, c1: real, c2: real, c3: real)
    ensures Vector3D(-b1, -b2, -b3).CrossProduct(Vector3D(c1 - b1, c2 - b2, c3 - b3)).DotProduct(Vector3D(a1 - b1, a2 - b2, a3 - b3))
         == -Vector3D(a1, a2, a3).CrossProduct(Vector3D(b1, b2, b3)).DotProduct(Vector3D(c1, c2, c3))
  {
  }

  /**
   * Every face's normal points away from the vertex it omits by the same
   * amount: the omitted vertex's height over each face is minus the
   * orientation. So when the orientation is positive, all four normals
   * face outward, as the indexer promises.
   */
  lemma FacesFaceOutward(t: Tetrahedron, index: int)
    requires 0 <= index <= 3
    ensures FaceHeight(t.Face(index).value, t.Vertex(Omitted(index))) == -t.Orientation()
    ensures t.Orientation() > 0.0 ==> FaceHeight(t.Face(index).value, t.Vertex(Omitted(index))) < 0.0
  {
    var a, b, c := Vector3D.Between(t.V0, t.V1), Vector3D.Between(t.V0, t.V2), Vector3D.Between(t.V0, t.V3);
    if index == 0 {
      Face0Product(a.X, a.Y, a.Z, b.X, b.Y, b.Z, c.X, c.Y, c.Z);
    } else if index == 1 {
      Face1Product(a.X, a.Y, a.Z, b.X, b.Y, b.Z, c.X, c.Y, c.Z);
    } else if index == 2 {
      Face2Product(a.X, a.Y, a.Z, b.X, b.Y, b.Z, c.X, c.Y, c.Z);
    } else {
      Face3Product(a.X, a.Y, a.Z, b.X, b.Y, b.Z, c.X, c.Y, c.Z);
    }
  }
}
