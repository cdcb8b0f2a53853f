/**
 * The scene as the exporter reads it: a tree of objects, each with a type,
 * a transformation relative to its parent, an optional mesh, metadata and
 * material slots.
 */
module Scene {
  import opened Wrappers
  import opened Transforms
  import opened Metadata

  /** The object types a scene may contain; only meshes are exported. */
  datatype ObjectType = Mesh | Curve | Surface | Text | Light | Camera | Empty | Armature | Other(tag: string)

  datatype Vertex = Vertex(x: real, y: real, z: real)

  /** A triangle by the 0-based indices of its three vertices. */
  datatype Triangle = Triangle(v1: nat, v2: nat, v3: nat)

  /** The mesh data of an object, with its own name and metadata. */
  datatype MeshData = MeshData(
    name: Option<string>,
    metadata: seq<MetadataEntry>,
    vertices: seq<Vertex>,
    triangles: seq<Triangle>)

  /**
   * A scene object. `parent` names the parent, if any; `transform` places
   * the object relative to its parent (for an object without a parent, in
   * the world); `mesh` is None when the object yields no mesh.
   */
  datatype Node = Node(
    name: Option<string>,
    objectType: ObjectType,
    parent: Option<string>,
    transform: Matrix4,
    mesh: Option<MeshData>,
    metadata: seq<MetadataEntry>,
    materialSlots: seq<string>,
    children: seq<Node>)

  /** Only objects of mesh type are written as resources. */
  predicate Eligible(n: Node)
  {
    n.objectType == Mesh
  }

  /** The objects the build list is made of: of mesh type and without a parent. */
  predicate TopLevel(n: Node)
  {
    n.parent.None? && Eligible(n)
  }

  /**
   * Whether the object's resource gets a <mesh>: the object must have mesh
   * data, and that mesh must have at least one vertex.
   */
  predicate HasMesh(n: Node)
  {
    n.mesh.Some? && n.mesh.value.vertices != []
  }
}
