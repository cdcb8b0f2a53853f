/**
 * The exporter's document state and the operations that fill it: the
 * resource id counter, the <resources> and <build> lists, and the material
 * group, updated in place by write_object_resource, write_objects and
 * write_materials.
 */
module Exporter {
  import opened Wrappers
  import opened Transforms
  import opened Metadata
  import opened Scene
  import opened MeshWriter
  import opened Resources
  import opened Build
  import opened Materials

  class Exporter {
    /** The decimal places coordinates and transformations are written with. */
    const precision: nat
    /** The id the next resource gets. */
    var nextResourceId: nat
    /** The <object> elements under <resources>, in the order they were added. */
    var resources: seq<ObjectResource>
    /** The <item> elements under <build>. */
    var build: seq<BuildItem>
    /** The <basematerials> group, when one was written. */
    var materialGroup: Option<seq<string>>

    /** Ids are handed out from 1 upwards, and resource k (0-based) has id k + 1. */
    ghost predicate Valid()
      reads this
    {
      nextResourceId == |resources| + 1 &&
      forall k :: 0 <= k < |resources| ==> resources[k].id == k + 1
    }

    constructor (precision: nat)
      ensures Valid()
      ensures this.precision == precision && nextResourceId == 1
      ensures resources == [] && build == [] && materialGroup == None
    {
      this.precision := precision;
      nextResourceId := 1;
      resources := [];
      build := [];
      materialGroup := None;
    }

    /**
     * write_object_resource: takes the next id for n, writes the resources of
     * n and its eligible descendants, and returns that id with n's
     * transformation. The new id is positive and larger than every id given
     * out before.
     */
    method WriteObjectResource(n: Node) returns (id: nat, transform: Matrix4)
      requires Valid()
      modifies this
      ensures Valid()
      ensures id == old(nextResourceId) && id >= 1
      ensures forall k :: 0 <= k < |old(resources)| ==> old(resources)[k].id < id
      ensures resources == old(resources) + ObjectResources(n, id, precision)
      ensures transform == n.transform
      ensures build == old(build) && materialGroup == old(materialGroup)
      decreases n, 2
    {
      id := nextResourceId;
      ghost var before := resources;
      nextResourceId := nextResourceId + 1;
      resources := resources + [ObjectResource(id, None, [], NoMetadata)];
      var components := WriteChildren(n.children, id + 1);
      PlaceObject(n, id, before, components);
      transform := n.transform;
    }

    /**
     * write_objects: every object without a parent and of mesh type gets its
     * resources and one build item carrying the id of its resource, the
     * global scale applied outside its transformation, and its metadata;
     * other objects are skipped (children are written with their parents).
     */
    method WriteObjects(nodes: seq<Node>, globalScale: real)
      requires Valid()
      modifies this
      ensures Valid()
      ensures resources == old(resources) + ForestResources(nodes, old(nextResourceId), precision)
      ensures build == old(build) + BuildItems(nodes, old(nextResourceId), globalScale, precision)
      ensures materialGroup == old(materialGroup)
    {
      ghost var start := nextResourceId;
      var i := 0;
      while i < |nodes|
        invariant 0 <= i <= |nodes|
        invariant Valid()
        invariant resources == old(resources) + ForestResources(nodes[..i], start, precision)
        invariant build == old(build) + BuildItems(nodes[..i], start, globalScale, precision)
        invariant materialGroup == old(materialGroup)
      {
        WriteObject(nodes, i, old(resources), old(build), start, globalScale);
        i := i + 1;
      }
      assert nodes[..i] == nodes;
    }

    /**
     * One object in the loop of write_objects: a top-level object gets its
     * resources and then its build item, with the id its resource got; any
     * other object is skipped.
     */
    method WriteObject(nodes: seq<Node>, i: nat, ghost base: seq<ObjectResource>, ghost baseItems: seq<BuildItem>,
                       ghost start: nat, globalScale: real)
      requires i < |nodes| && Valid()
      requires resources == base + ForestResources(nodes[..i], start, precision)
      requires build == baseItems + BuildItems(nodes[..i], start, globalScale, precision)
      requires nextResourceId == start + |ForestResources(nodes[..i], start, precision)|
      modifies this
      ensures Valid()
      ensures resources == base + ForestResources(nodes[..i + 1], start, precision)
      ensures build == baseItems + BuildItems(nodes[..i + 1], start, globalScale, precision)
      ensures materialGroup == old(materialGroup)
    {
      var n := nodes[i];
      if TopLevel(n) {
        ghost var front := ForestResources(nodes[..i], start, precision);
        ghost var items := BuildItems(nodes[..i], start, globalScale, precision);
        WriteBuildItem(n, base, front, baseItems, items, start, globalScale);
        assert nodes[..i + 1] == nodes[..i] + [n];
        ForestLast(nodes[..i], n, start, precision);
        ItemsLast(nodes[..i], n, start, globalScale, precision);
      } else {
        ForestSkipStep(nodes, i, start, globalScale, precision);
      }
    }

    /** A top-level object: its resources, then its build item. */
    method WriteBuildItem(n: Node, ghost base: seq<ObjectResource>, ghost front: seq<ObjectResource>,
                          ghost baseItems: seq<BuildItem>, ghost items: seq<BuildItem>, ghost start: nat, globalScale: real)
      requires Valid()
      requires resources == base + front && build == baseItems + items
      requires nextResourceId == start + |front|
      modifies this
      ensures Valid()
      ensures resources == base + (front + ObjectResources(n, start + |front|, precision))
      ensures build == baseItems + (items + [ItemOf(n, start + |front|, globalScale, precision)])
      ensures materialGroup == old(materialGroup)
    {
      ghost var prev := resources;
      var id, transform := WriteObjectResource(n);
      AppendAssociates(base, front, ObjectResources(n, id, precision), prev, resources);
      var item := BuildItem(id, TransformAttribute(Mul(Scale(globalScale), transform), precision), MetadataSource(n.name, n.metadata));
      build := build + [item];
    }

    /**
     * write_materials: every material of the objects' slots gets the next
     * index the first time it is met; the <basematerials> group is written
     * only when there is at least one material, and the returned mapping is
     * empty exactly when there is none.
     */
    method WriteMaterials(nodes: seq<Node>) returns (indices: map<string, nat>)
      modifies this
      ensures indices == IndexMap(MaterialNames(nodes))
      ensures materialGroup == if MaterialNames(nodes) == [] then None else Some(MaterialNames(nodes))
      ensures nextResourceId == old(nextResourceId) && resources == old(resources) && build == old(build)
    {
      var names: seq<string> := [];
      indices := map[];
      var i := 0;
      while i < |nodes|
        invariant 0 <= i <= |nodes|
        invariant Numbered(AllSlots(nodes[..i]), names, indices)
        invariant nextResourceId == old(nextResourceId) && resources == old(resources) && build == old(build)
      {
        ghost var met := AllSlots(nodes[..i]);
        names, indices := NumberMaterials(nodes[i].materialSlots, met, names, indices);
        AllSlotsStep(nodes, i);
        i := i + 1;
      }
      assert nodes[..i] == nodes;
      if names != [] {
        materialGroup := Some(names);
      } else {
        materialGroup := None;
      }
    }

    /**
     * The loop of write_object_resource over the children of an object:
     * every eligible child gets its resources, ids counted from start, and a
     * component that refers to it.
     */
    method WriteChildren(cs: seq<Node>, start: nat) returns (components: seq<Component>)
      requires Valid() && nextResourceId == start
      modifies this
      ensures Valid()
      ensures resources == old(resources) + ChildrenBlock(cs, start, precision).resources
      ensures components == ChildrenBlock(cs, start, precision).components
      ensures build == old(build) && materialGroup == old(materialGroup)
      decreases cs, 1
    {
      components := [];
      var i := 0;
      while i < |cs|
        invariant 0 <= i <= |cs|
        invariant Valid()
        invariant resources == old(resources) + ChildrenBlock(cs[..i], start, precision).resources
        invariant components == ChildrenBlock(cs[..i], start, precision).components
        invariant build == old(build) && materialGroup == old(materialGroup)
      {
        ghost var front := ChildrenBlock(cs[..i], start, precision);
        components := WriteChild(cs[i], old(resources), front, start, components);
        ChildrenBlockStep(cs, i, start, precision);
        i := i + 1;
      }
      assert cs[..i] == cs;
    }

    /**
     * One child in the loop of write_object_resource: an eligible child's
     * resources follow those of the children before it, and one more
     * component refers to it with its transformation relative to the parent;
     * any other child is skipped.
     */
    method WriteChild(child: Node, ghost base: seq<ObjectResource>, ghost front: ChildBlock, start: nat,
                      components: seq<Component>) returns (components': seq<Component>)
      requires Valid() && |base| + 1 == start
      requires resources == base + front.resources && components == front.components
      modifies this
      ensures Valid()
      ensures resources == base + BlockAfter(front, child, start, precision).resources
      ensures components' == BlockAfter(front, child, start, precision).components
      ensures build == old(build) && materialGroup == old(materialGroup)
      decreases child, 3
    {
      if Eligible(child) {
        ghost var prev := resources;
        var childId, childTransform := WriteObjectResource(child);
        AppendAssociates(base, front.resources, ObjectResources(child, childId, precision), prev, resources);
        components' := components + [Component(childId, TransformAttribute(childTransform, precision))];
      } else {
        components' := components;
      }
    }

    /**
     * The end of write_object_resource: n's mesh is written, into n's own
     * <object> when n has no components and into a resource of its own
     * otherwise, and n's <object>, written first as a placeholder, gets its
     * content.
     */
    method PlaceObject(n: Node, id: nat, ghost before: seq<ObjectResource>, components: seq<Component>)
      requires Valid() && id == |before| + 1
      requires resources == before + [ObjectResource(id, None, [], NoMetadata)] + ChildrenBlock(n.children, id + 1, precision).resources
      requires components == ChildrenBlock(n.children, id + 1, precision).components
      modifies this
      ensures Valid()
      ensures resources == before + ObjectResources(n, id, precision)
      ensures build == old(build) && materialGroup == old(materialGroup)
    {
      ghost var block := ChildrenBlock(n.children, id + 1, precision);
      ghost var placeholder := ObjectResource(id, None, [], NoMetadata);
      ghost var tail: seq<ObjectResource> := [];
      var topMesh: Option<MeshElement> := None;
      var topComponents := components;
      if HasMesh(n) {
        var vertices := WriteVertices(n.mesh.value.vertices, precision);
        var triangles := WriteTriangles(n.mesh.value.triangles);
        var mesh := MeshElement(vertices, triangles);
        if components != [] {
          // The object also has components: its mesh goes into a resource of its own.
          var meshId := nextResourceId;
          nextResourceId := nextResourceId + 1;
          resources := resources + [ObjectResource(meshId, Some(mesh), [], NoMetadata)];
          topComponents := components + [Component(meshId, None)];
          tail := [ObjectResource(meshId, Some(mesh), [], NoMetadata)];
          ObjectWithWrappedMesh(n, id, precision);
        } else {
          topMesh := Some(mesh);
          ObjectWithOwnMesh(n, id, precision);
        }
      } else {
        ObjectWithoutMesh(n, id, precision);
      }
      var top := ObjectResource(id, topMesh, topComponents, ObjectMetadata(n));
      assert ObjectResources(n, id, precision) == [top] + block.resources + tail;
      assert resources == before + [placeholder] + (block.resources + tail);
      ReplacePlaceholder(before, placeholder, block.resources + tail, top);
      resources := resources[id - 1 := top];
    }
  }

  /**
   * The inner loop of write_materials over one object's slots: a material
   * not numbered yet gets the next index. With `met` the slots seen before,
   * the numbered names stay the first occurrences of everything seen so far.
   */
  method NumberMaterials(slots: seq<string>, ghost met: seq<string>, names: seq<string>, indices: map<string, nat>)
    returns (names': seq<string>, indices': map<string, nat>)
    requires Numbered(met, names, indices)
    ensures Numbered(met + slots, names', indices')
  {
    names', indices' := names, indices;
    var j := 0;
    SlotsFrom(met, slots, 0, names', indices');
    while j < |slots|
      invariant 0 <= j <= |slots|
      invariant Numbered(met + slots[..j], names', indices')
    {
      names', indices' := NumberSlot(met, slots, j, names', indices');
      j := j + 1;
    }
    SlotsFrom(met, slots, j, names', indices');
  }

  /** One slot of write_materials: a material not numbered yet gets the next index. */
  method NumberSlot(ghost met: seq<string>, slots: seq<string>, j: nat, names: seq<string>, indices: map<string, nat>)
    returns (names': seq<string>, indices': map<string, nat>)
    requires j < |slots| && Numbered(met + slots[..j], names, indices)
    ensures Numbered(met + slots[..j + 1], names', indices')
  {
    SliceExtend(met, slots, j);
    var material := slots[j];
    if material !in indices {
      NumberedNew(met + slots[..j], names, indices, material);
      indices' := indices[material := |names|];
      names' := names + [material];
    } else {
      NumberedKnown(met + slots[..j], names, indices, material);
      names', indices' := names, indices;
    }
  }

  /** Before the first slot the numbering is that of `met`; after the last one it is that of all slots. */
  lemma SlotsFrom(met: seq<string>, slots: seq<string>, j: nat, names: seq<string>, indices: map<string, nat>)
    requires j == 0 || j == |slots|
    ensures j == 0 ==> (Numbered(met, names, indices) ==> Numbered(met + slots[..j], names, indices))
    ensures j == |slots| ==> (Numbered(met + slots[..j], names, indices) ==> Numbered(met + slots, names, indices))
  {
    SliceExtend(met, slots, j);
  }

  /** Proof helper: ForestResources and BuildItems unfolded once at a nodes[i] that is not top-level. */
  lemma ForestSkipStep(nodes: seq<Node>, i: nat, start: nat, globalScale: real, precision: nat)
    requires i < |nodes| && !TopLevel(nodes[i])
    ensures ForestResources(nodes[..i + 1], start, precision) == ForestResources(nodes[..i], start, precision)
    ensures BuildItems(nodes[..i + 1], start, globalScale, precision) == BuildItems(nodes[..i], start, globalScale, precision)
  {
    assert nodes[..i + 1][..i] == nodes[..i];
    assert nodes[..i + 1][i] == nodes[i];
  }

  /** met + slots[..j] grows by slots[j] at each step, starting at met and ending at met + slots. */
  lemma SliceExtend<T>(met: seq<T>, slots: seq<T>, j: nat)
    requires j <= |slots|
    ensures j == 0 ==> met + slots[..j] == met
    ensures j == |slots| ==> met + slots[..j] == met + slots
    ensures j < |slots| ==> met + slots[..j + 1] == (met + slots[..j]) + [slots[j]]
  {
    if j < |slots| {
      assert slots[..j + 1] == slots[..j] + [slots[j]];
    }
    if j == |slots| {
      assert slots[..j] == slots;
    }
  }

  lemma AppendAssociates<T>(a: seq<T>, b: seq<T>, c: seq<T>, ab: seq<T>, abc: seq<T>)
    requires ab == a + b && abc == ab + c
    ensures abc == a + (b + c)
  {
  }

  lemma ReplacePlaceholder<T>(before: seq<T>, placeholder: T, rest: seq<T>, x: T)
    ensures (before + [placeholder] + rest)[|before| := x] == before + ([x] + rest)
  {
  }
}
