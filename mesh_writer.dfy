/**
 * write_vertices and write_triangles: one <vertex> per vertex with its
 * coordinates formatted at the export precision, one <triangle> per triangle
 * with its vertex indices written as integers.
 */
module MeshWriter {
  import opened NumberFormat
  import opened Scene

  datatype VertexElement = VertexElement(x: string, y: string, z: string)
  datatype TriangleElement = TriangleElement(v1: string, v2: string, v3: string)

  /** The <mesh> element: its <vertices> and <triangles> children. */
  datatype MeshElement = MeshElement(vertices: seq<VertexElement>, triangles: seq<TriangleElement>)

  function VertexElementOf(v: Vertex, precision: nat): VertexElement
  {
    VertexElement(FormatNumber(v.x, precision), FormatNumber(v.y, precision), FormatNumber(v.z, precision))
  }

  function TriangleElementOf(t: Triangle): TriangleElement
  {
    TriangleElement(NatText(t.v1), NatText(t.v2), NatText(t.v3))
  }

  /** The vertex elements of a vertex list, in order. */
  function VertexElements(vertices: seq<Vertex>, precision: nat): (elements: seq<VertexElement>)
    ensures |elements| == |vertices|
    ensures forall k :: 0 <= k < |vertices| ==> elements[k] == VertexElementOf(vertices[k], precision)
  {
    seq(|vertices|, k requires 0 <= k < |vertices| => VertexElementOf(vertices[k], precision))
  }

  /** The triangle elements of a triangle list, in order. */
  function TriangleElements(triangles: seq<Triangle>): (elements: seq<TriangleElement>)
    ensures |elements| == |triangles|
    ensures forall k :: 0 <= k < |triangles| ==> elements[k] == TriangleElementOf(triangles[k])
  {
    seq(|triangles|, k requires 0 <= k < |triangles| => TriangleElementOf(triangles[k]))
  }

  function MeshElementOf(mesh: MeshData, precision: nat): MeshElement
  {
    MeshElement(VertexElements(mesh.vertices, precision), TriangleElements(mesh.triangles))
  }

  /** write_vertices: appends one element per vertex. */
  method WriteVertices(vertices: seq<Vertex>, precision: nat) returns (elements: seq<VertexElement>)
    ensures elements == VertexElements(vertices, precision)
  {
    elements := [];
    var i := 0;
    while i < |vertices|
      invariant 0 <= i <= |vertices|
      invariant elements == VertexElements(vertices[..i], precision)
    {
      elements := elements + [VertexElementOf(vertices[i], precision)];
      i := i + 1;
      assert vertices[..i] == vertices[..i - 1] + [vertices[i - 1]];
    }
    assert vertices[..i] == vertices;
  }

  /** write_triangles: appends one element per triangle. */
  method WriteTriangles(triangles: seq<Triangle>) returns (elements: seq<TriangleElement>)
    ensures elements == TriangleElements(triangles)
  {
    elements := [];
    var i := 0;
    while i < |triangles|
      invariant 0 <= i <= |triangles|
      invariant elements == TriangleElements(triangles[..i])
    {
      elements := elements + [TriangleElementOf(triangles[i])];
      i := i + 1;
      assert triangles[..i] == triangles[..i - 1] + [triangles[i - 1]];
    }
    assert triangles[..i] == triangles;
  }

  // ---------------------------------------------------------------------
  // Reading the elements back

  /** True when the text reads as a decimal within half a unit of the last place from x. */
  predicate ReadsBackNear(text: string, x: real, precision: nat)
  {
    var d := ParseNumber(text);
    d.Some? && d.value.scale <= precision &&
    -1.0 <= 2.0 * ((d.value.mantissa * Pow10(precision - d.value.scale)) as real - x * Pow10(precision) as real) <= 1.0
  }

  /** Each coordinate attribute reads back within half a unit of the last place of the vertex's coordinate. */
  lemma VertexReadsBack(v: Vertex, precision: nat)
    ensures var e := VertexElementOf(v, precision);
            ReadsBackNear(e.x, v.x, precision) && ReadsBackNear(e.y, v.y, precision) && ReadsBackNear(e.z, v.z, precision)
  {
    FormatRoundTrip(v.x, precision);
    FormatRoundTrip(v.y, precision);
    FormatRoundTrip(v.z, precision);
  }

  /** Each index attribute is plain digits that read back as exactly the index. */
  lemma TriangleReadsBack(t: Triangle)
    ensures var e := TriangleElementOf(t);
            AllDigits(e.v1) && AllDigits(e.v2) && AllDigits(e.v3) &&
            DigitsValue(e.v1) == t.v1 && DigitsValue(e.v2) == t.v2 && DigitsValue(e.v3) == t.v3
  {
    NatTextValue(t.v1);
    NatTextValue(t.v2);
    NatTextValue(t.v3);
  }

  /** Different triangles give different elements: the writer loses no index. */
  lemma TriangleElementInjective(s: Triangle, t: Triangle)
    requires TriangleElementOf(s) == TriangleElementOf(t)
    ensures s == t
  {
    TriangleReadsBack(s);
    TriangleReadsBack(t);
  }
}
