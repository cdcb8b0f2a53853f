/**
 * The scenarios of the exporter's unit tests for write_object_resource,
 * write_materials, write_objects, write_vertices and write_triangles,
 * stated on the model.
 * Scene objects are built from the few fields each scenario fixes; the rest
 * are parameters, so every lemma covers all objects of that shape.
 */
module ExportExamples {
  import opened Wrappers
  import opened NumberFormat
  import opened Transforms
  import opened Metadata
  import opened Scene
  import opened MeshWriter
  import opened Resources
  import opened Build
  import opened FormattingExamples
  import Exporter
  import Materials

  // ---------------------------------------------------------------------
  // write_object_resource

  /** Calling write_object_resource `count` times on one exporter: every id returned is positive and new. */
  method GiveIds(n: Node, count: nat) returns (ids: seq<nat>)
    ensures |ids| == count
    ensures forall k :: 0 <= k < |ids| ==> ids[k] > 0
    ensures forall i, j :: 0 <= i < j < |ids| ==> ids[i] != ids[j]
  {
    var exporter := new Exporter.Exporter(4);
    ids := [];
    while |ids| < count
      invariant exporter.Valid()
      invariant |ids| <= count
      invariant forall k :: 0 <= k < |ids| ==> 0 < ids[k] < exporter.nextResourceId
      invariant forall i, j :: 0 <= i < j < |ids| ==> ids[i] < ids[j]
    {
      var id, transform := exporter.WriteObjectResource(n);
      ids := ids + [id];
    }
  }

  /** An object without mesh data, or whose mesh has no vertices, and without children: one <object>, no <mesh>. */
  lemma NoMeshResource(n: Node, id: nat, precision: nat)
    requires !HasMesh(n) && n.children == []
    ensures ObjectResources(n, id, precision) == [ObjectResource(id, None, [], ObjectMetadata(n))]
  {
    ObjectWithoutMesh(n, id, precision);
  }

  /** An object with a mesh and no children: one <object> holding the one <mesh>, written from its vertices and triangles. */
  lemma MeshResource(n: Node, id: nat, precision: nat)
    requires HasMesh(n) && n.children == []
    ensures var rs := ObjectResources(n, id, precision);
            |rs| == 1 && rs[0].components == [] &&
            rs[0].mesh == Some(MeshElement(VertexElements(n.mesh.value.vertices, precision),
                                           TriangleElements(n.mesh.value.triangles)))
  {
    ObjectWithOwnMesh(n, id, precision);
  }

  /**
   * An object without mesh and one mesh-type child at twice the size: one
   * component, for a resource whose id is not the parent's, with transform
   * "2 0 0 0 2 0 0 0 2 0 0 0".
   */
  lemma ScaledChildComponent(parent: Node, child: Node, id: nat, precision: nat)
    requires !HasMesh(parent) && parent.children == [child]
    requires child.objectType == Mesh && child.transform == Scale(2.0)
    ensures var rs := ObjectResources(parent, id, precision);
            rs[0].components == [Component(id + 1, Some("2 0 0 0 2 0 0 0 2 0 0 0"))] &&
            rs[0].components[0].objectId != rs[0].id
  {
    ObjectWithoutMesh(parent, id, precision);
    OneChildBlock(child, id + 1, precision);
    DoubleScaleAttribute(precision);
  }

  /** A uniform scale by 2 is not the identity, and is written "2 0 0 0 2 0 0 0 2 0 0 0". */
  lemma DoubleScaleAttribute(precision: nat)
    ensures TransformAttribute(Scale(2.0), precision) == Some("2 0 0 0 2 0 0 0 2 0 0 0")
  {
    assert Scale(2.0)[0][0] != Identity()[0][0];
    DoubleScaleText(precision);
  }

  lemma DoubleScaleText(precision: nat)
    ensures FormatTransformation(Scale(2.0), precision) == "2 0 0 0 2 0 0 0 2 0 0 0"
  {
    WholeScaleText(2, precision);
    TwoText();
    SpellOutScale(NatText(2));
  }

  /** Proof helper: the scale-2 text spelled out from its diagonal word. */
  lemma SpellOutScale(t: string)
    requires t == "2"
    ensures t + " 0 0 0 " + t + " 0 0 0 " + t + " 0 0 0" == "2 0 0 0 2 0 0 0 2 0 0 0"
  {
  }

  /** Proof helper: the digit text of 2. */
  lemma TwoText()
    ensures NatText(2) == "2"
  {
  }

  /**
   * An object with a mesh and one mesh-type child without mesh: two
   * components with ids different from each other and from the parent's,
   * the parent's <object> without a <mesh>, and exactly one <mesh> in all
   * the resources written, holding the parent's mesh.
   */
  lemma MeshAndChildComponents(parent: Node, child: Node, id: nat, precision: nat)
    requires HasMesh(parent) && parent.children == [child]
    requires Eligible(child) && !HasMesh(child) && child.children == []
    ensures var rs := ObjectResources(parent, id, precision);
            var cs := rs[0].components;
            rs[0].mesh.None? && |cs| == 2 &&
            cs[0].objectId != cs[1].objectId && cs[0].objectId != id && cs[1].objectId != id &&
            MeshCount(rs) == 1 &&
            rs[|rs| - 1].mesh == Some(MeshElementOf(parent.mesh.value, precision))
  {
    OneChildBlock(child, id + 1, precision);
    NoMeshResource(child, id + 1, precision);
    ObjectWithWrappedMesh(parent, id, precision);
    ObjectMeshCount(parent, id, precision);
    assert ChildrenMeshObjects([child]) == ChildrenMeshObjects([]) + MeshObjects(child);
  }

  /** The children block of a single eligible child. */
  lemma OneChildBlock(child: Node, start: nat, precision: nat)
    requires Eligible(child)
    ensures ChildrenBlock([child], start, precision) ==
              ChildBlock(ObjectResources(child, start, precision),
                         [Component(start, TransformAttribute(child.transform, precision))])
  {
    assert [child][..0] == [];
    EmptyPrefix(ObjectResources(child, start, precision));
    EmptyPrefix([Component(start, TransformAttribute(child.transform, precision))]);
  }

  /**
   * The metadata of a resource comes from its mesh data: the mesh's name
   * "Sergeant Reckless" as a preserved xs:string Title, and the entry
   * "Description" with its own type "some_type" and no preserve attribute.
   */
  lemma MeshMetadataExample(n: Node, vertices: seq<Vertex>, triangles: seq<Triangle>, id: nat, precision: nat)
    requires n.mesh == Some(MeshData(Some("Sergeant Reckless"),
                                     [MetadataEntry("Description", false, Some("some_type"), "Pack horse")],
                                     vertices, triangles))
    ensures MetadataGroup(ObjectResources(n, id, precision)[0].metadata) ==
              Some([MetadataElement("Title", Some("1"), "xs:string", "Sergeant Reckless"),
                    MetadataElement("Description", None, "some_type", "Pack horse")])
  {
    assert ObjectResources(n, id, precision)[0].metadata == ObjectMetadata(n);
    TitleAndEntry("Sergeant Reckless", MetadataEntry("Description", false, Some("some_type"), "Pack horse"));
  }

  // ---------------------------------------------------------------------
  // write_materials

  /**
   * write_materials on objects none of which has a material slot (no
   * objects at all included): no <basematerials> group and no index.
   */
  method NoMaterialsWritten(nodes: seq<Node>) returns (indices: map<string, nat>, group: Option<seq<string>>)
    requires forall k :: 0 <= k < |nodes| ==> nodes[k].materialSlots == []
    ensures indices == map[] && group == None
  {
    var exporter := new Exporter.Exporter(4);
    indices := exporter.WriteMaterials(nodes);
    group := exporter.materialGroup;
    Materials.NoMaterialsIff(nodes);
  }

  // ---------------------------------------------------------------------
  // write_objects

  /** No objects: no resources and no build items. */
  lemma NoObjects(start: nat, globalScale: real, precision: nat)
    ensures ForestResources([], start, precision) == [] && BuildItems([], start, globalScale, precision) == []
  {
  }

  /** One parentless mesh object at the identity and global scale 1: one item, its resource's id, no transform. */
  lemma SingleObject(n: Node, start: nat, precision: nat)
    requires TopLevel(n) && n.transform == Identity()
    ensures BuildItems([n], start, 1.0, precision) == [BuildItem(start, None, MetadataSource(n.name, n.metadata))]
  {
    OneObject(n, start, 1.0, precision);
    IdentityNeutral(Identity());
  }

  /** A parent with its child in the object list: only the parent is written and built. */
  lemma NestedObjects(parent: Node, child: Node, start: nat, globalScale: real, precision: nat)
    requires TopLevel(parent) && child.parent.Some?
    ensures ForestResources([parent, child], start, precision) == ObjectResources(parent, start, precision)
    ensures |BuildItems([parent, child], start, globalScale, precision)| == 1
  {
    assert [parent, child][..1] == [parent];
    OneObject(parent, start, globalScale, precision);
  }

  /** A list of one top-level object: its resources and its one build item, ids counted from start. */
  lemma OneObject(n: Node, start: nat, globalScale: real, precision: nat)
    requires TopLevel(n)
    ensures ForestResources([n], start, precision) == ObjectResources(n, start, precision)
    ensures BuildItems([n], start, globalScale, precision) == [ItemOf(n, start, globalScale, precision)]
  {
    assert [] + [n] == [n];
    ForestLast([], n, start, precision);
    ItemsLast([], n, start, globalScale, precision);
    assert ForestResources([], start, precision) == [];
    assert BuildItems([], start, globalScale, precision) == [];
    EmptyPrefix(ObjectResources(n, start, precision));
    EmptyPrefix([ItemOf(n, start, globalScale, precision)]);
  }

  /** Proof helper: the empty sequence is a left unit of concatenation. */
  lemma EmptyPrefix<T>(s: seq<T>)
    ensures [] + s == s
  {
  }

  /** A light: no resource and no build item. */
  lemma LightIgnored(n: Node, start: nat, globalScale: real, precision: nat)
    requires n.objectType == Light
    ensures ForestResources([n], start, precision) == [] && BuildItems([n], start, globalScale, precision) == []
  {
    assert [n][..0] == [];
  }

  /** Two parentless mesh objects: two items, for the two objects' resources, with different ids. */
  lemma TwoObjects(a: Node, b: Node, start: nat, globalScale: real, precision: nat)
    requires TopLevel(a) && TopLevel(b)
    ensures var items := BuildItems([a, b], start, globalScale, precision);
            var second := start + |ObjectResources(a, start, precision)|;
            items == [ItemOf(a, start, globalScale, precision), ItemOf(b, second, globalScale, precision)] &&
            items[0].objectId != items[1].objectId
  {
    assert [a] + [b] == [a, b];
    OneObject(a, start, globalScale, precision);
    ForestLast([a], b, start, precision);
    ItemsLast([a], b, start, globalScale, precision);
    PairOf(ItemOf(a, start, globalScale, precision), ItemOf(b, start + |ObjectResources(a, start, precision)|, globalScale, precision));
  }

  /** Proof helper: two singletons concatenated form a pair. */
  lemma PairOf<T>(x: T, y: T)
    ensures [x] + [y] == [x, y]
  {
  }

  /** Global scale 2 and an object moved by (10, 20, 30): the item's transform is Scale(2) * Translation(10, 20, 30). */
  lemma ScaledTranslation(n: Node, start: nat, precision: nat)
    requires TopLevel(n) && n.transform == Translation(10.0, 20.0, 30.0)
    ensures Mul(Scale(2.0), n.transform) ==
              [[2.0, 0.0, 0.0, 20.0], [0.0, 2.0, 0.0, 40.0], [0.0, 0.0, 2.0, 60.0], [0.0, 0.0, 0.0, 1.0]]
    ensures BuildItems([n], start, 2.0, precision)[0].transform == Some(FormatTransformation(Mul(Scale(2.0), n.transform), precision))
  {
    OneObject(n, start, 2.0, precision);
    var m := Mul(Scale(2.0), n.transform);
    ScaleOutside(2.0, n.transform);
    assert m[0] == [2.0, 0.0, 0.0, 20.0] && m[1] == [0.0, 2.0, 0.0, 40.0];
    assert m[2] == [0.0, 0.0, 2.0, 60.0] && m[3] == [0.0, 0.0, 0.0, 1.0];
    assert m[0][0] != Identity()[0][0];
  }

  /**
   * The build item of the object "Acoustic Kitty": a preserved xs:string
   * Title with the name, and its "Description" entry with type "mostly fur"
   * and no preserve attribute.
   */
  lemma BuildItemMetadata(n: Node, start: nat, precision: nat)
    requires TopLevel(n) && n.name == Some("Acoustic Kitty")
    requires n.metadata == [MetadataEntry("Description", false, Some("mostly fur"), "A CIA project to spy on the Soviet embassies.")]
    ensures var items := BuildItems([n], start, 1.0, precision);
            |items| == 1 &&
            MetadataGroup(items[0].metadata) ==
              Some([MetadataElement("Title", Some("1"), "xs:string", "Acoustic Kitty"),
                    MetadataElement("Description", None, "mostly fur", "A CIA project to spy on the Soviet embassies.")])
  {
    OneObject(n, start, 1.0, precision);
    TitleAndEntry("Acoustic Kitty", n.metadata[0]);
  }

  // ---------------------------------------------------------------------
  // write_vertices and write_triangles

  /** No vertices and no triangles: no elements. */
  lemma EmptyMesh(precision: nat)
    ensures VertexElements([], precision) == [] && TriangleElements([]) == []
  {
  }

  /** The three vertices of the test at four decimals: "0", "1.1", "2.2" and so on. */
  lemma VertexExample()
    ensures VertexElements([Vertex(0.0, 1.1, 2.2), Vertex(3.3, 4.4, 5.5), Vertex(6.6, 7.7, 8.8)], 4) ==
              [VertexElement("0", "1.1", "2.2"), VertexElement("3.3", "4.4", "5.5"), VertexElement("6.6", "7.7", "8.8")]
  {
    var vs := [Vertex(0.0, 1.1, 2.2), Vertex(3.3, 4.4, 5.5), Vertex(6.6, 7.7, 8.8)];
    FirstVertex();
    SecondVertex();
    ThirdVertex();
    ThreeVertices(vs, 4);
  }

  lemma ThreeVertices(vs: seq<Vertex>, precision: nat)
    requires |vs| == 3
    ensures VertexElements(vs, precision) ==
              [VertexElementOf(vs[0], precision), VertexElementOf(vs[1], precision), VertexElementOf(vs[2], precision)]
  {
    ThreeOf(VertexElements(vs, precision), VertexElementOf(vs[0], precision), VertexElementOf(vs[1], precision), VertexElementOf(vs[2], precision));
  }

  /** Proof helper: a three-element sequence given element by element. */
  lemma ThreeOf<T>(es: seq<T>, a: T, b: T, c: T)
    requires |es| == 3 && es[0] == a && es[1] == b && es[2] == c
    ensures es == [a, b, c]
  {
  }

  lemma FirstVertex()
    ensures VertexElementOf(Vertex(0.0, 1.1, 2.2), 4) == VertexElement("0", "1.1", "2.2")
  {
    FormatTenths(0, 4);
    FormatTenths(11, 4);
    FormatTenths(22, 4);
    WholeTenths();
    FractionTenthsLow();
    FractionTenthsMiddle();
  }

  lemma SecondVertex()
    ensures VertexElementOf(Vertex(3.3, 4.4, 5.5), 4) == VertexElement("3.3", "4.4", "5.5")
  {
    FormatTenths(33, 4);
    FormatTenths(44, 4);
    FormatTenths(55, 4);
    TenthsText(3, 3);
    TenthsText(4, 4);
    TenthsText(5, 5);
  }

  lemma ThirdVertex()
    ensures VertexElementOf(Vertex(6.6, 7.7, 8.8), 4) == VertexElement("6.6", "7.7", "8.8")
  {
    FormatTenths(66, 4);
    FormatTenths(77, 4);
    FormatTenths(88, 4);
    TenthsText(6, 6);
    TenthsText(7, 7);
    TenthsText(8, 8);
  }

  /** The three triangles of the test: their indices written as they are. */
  lemma TriangleExample()
    ensures TriangleElements([Triangle(0, 1, 2), Triangle(3, 4, 5), Triangle(4, 2, 0)]) ==
              [TriangleElement("0", "1", "2"), TriangleElement("3", "4", "5"), TriangleElement("4", "2", "0")]
  {
    assert NatText(0) == "0" && NatText(1) == "1" && NatText(2) == "2";
    assert NatText(3) == "3" && NatText(4) == "4" && NatText(5) == "5";
  }
}
