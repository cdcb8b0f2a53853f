/**
 * The resources and build items the exporter writes for a scene, as
 * functions of the scene: what write_object_resource appends for one object
 * tree, and what write_objects appends for a list of objects.
 */
module Resources {
  import opened Wrappers
  import opened Transforms
  import opened Metadata
  import opened Scene
  import opened MeshWriter

  /** A <component>: the resource it places and its transform attribute (absent for the identity). */
  datatype Component = Component(objectId: nat, transform: Option<string>)

  /**
   * An <object> resource: its id, its <mesh> if it has one, its <components>
   * (none when the list is empty) and the entity whose metadata group it
   * holds (MetadataGroup gives the elements).
   */
  datatype ObjectResource = ObjectResource(
    id: nat,
    mesh: Option<MeshElement>,
    components: seq<Component>,
    metadata: MetadataSource)

  /** A build <item>: the resource it builds, its transform attribute and the entity whose metadata group it holds. */
  datatype BuildItem = BuildItem(objectId: nat, transform: Option<string>, metadata: MetadataSource)

  /** What the children of one object contribute: their resources, and the components placing them. */
  datatype ChildBlock = ChildBlock(resources: seq<ObjectResource>, components: seq<Component>)

  /** The metadata of an object's resource: from its mesh data when it has one, else from the object. */
  function ObjectMetadata(n: Node): MetadataSource
  {
    if n.mesh.Some? then MetadataSource(n.mesh.value.name, n.mesh.value.metadata)
    else MetadataSource(n.name, n.metadata)
  }

  /**
   * The resources written for object n when the id counter stands at id:
   * the object's own resource first, then those of its eligible children in
   * order, then, when the object has both a mesh and eligible children, one
   * more resource holding the mesh, placed by a component with no transform.
   */
  function ObjectResources(n: Node, id: nat, precision: nat): (rs: seq<ObjectResource>)
    ensures |rs| >= 1 && rs[0].id == id
    decreases n, 1
  {
    var block := ChildrenBlock(n.children, id + 1, precision);
    var wrap := HasMesh(n) && block.components != [];
    var meshId := id + 1 + |block.resources|;
    var top := ObjectResource(
      id,
      if HasMesh(n) && !wrap then Some(MeshElementOf(n.mesh.value, precision)) else None,
      block.components + (if wrap then [Component(meshId, None)] else []),
      ObjectMetadata(n));
    [top] + block.resources + (if wrap then [ObjectResource(meshId, Some(MeshElementOf(n.mesh.value, precision)), [], NoMetadata)] else [])
  }

  /** Proof helper: ObjectResources unfolded for an object without a mesh. */
  lemma ObjectWithoutMesh(n: Node, id: nat, precision: nat)
    requires !HasMesh(n)
    ensures var block := ChildrenBlock(n.children, id + 1, precision);
            ObjectResources(n, id, precision) ==
              [ObjectResource(id, None, block.components, ObjectMetadata(n))] + block.resources
  {
    var block := ChildrenBlock(n.children, id + 1, precision);
    assert block.components + [] == block.components;
    assert [ObjectResource(id, None, block.components, ObjectMetadata(n))] + block.resources + [] ==
           [ObjectResource(id, None, block.components, ObjectMetadata(n))] + block.resources;
  }

  /** Proof helper: ObjectResources unfolded for an object with a mesh and no eligible children. */
  lemma ObjectWithOwnMesh(n: Node, id: nat, precision: nat)
    requires HasMesh(n) && ChildrenBlock(n.children, id + 1, precision).components == []
    ensures var block := ChildrenBlock(n.children, id + 1, precision);
            ObjectResources(n, id, precision) ==
              [ObjectResource(id, Some(MeshElementOf(n.mesh.value, precision)), [], ObjectMetadata(n))] + block.resources
  {
    var block := ChildrenBlock(n.children, id + 1, precision);
    var top := ObjectResource(id, Some(MeshElementOf(n.mesh.value, precision)), [], ObjectMetadata(n));
    assert block.components + [] == [];
    assert [top] + block.resources + [] == [top] + block.resources;
  }

  /** Proof helper: ObjectResources unfolded for an object with a mesh and eligible children. */
  lemma ObjectWithWrappedMesh(n: Node, id: nat, precision: nat)
    requires HasMesh(n) && ChildrenBlock(n.children, id + 1, precision).components != []
    ensures var block := ChildrenBlock(n.children, id + 1, precision);
            var meshId := id + 1 + |block.resources|;
            ObjectResources(n, id, precision) ==
              [ObjectResource(id, None, block.components + [Component(meshId, None)], ObjectMetadata(n))] +
              block.resources + [ObjectResource(meshId, Some(MeshElementOf(n.mesh.value, precision)), [], NoMetadata)]
  {
    var block := ChildrenBlock(n.children, id + 1, precision);
    var wrap := HasMesh(n) && block.components != [];
    assert wrap;
  }

  /**
   * Where an object's mesh is written. An object without a mesh gets none in
   * its own resource. An object with a mesh has it in its own resource
   * exactly when that resource has no components. Otherwise the mesh is in
   * the last resource written for the object: that resource has no
   * components, and the object's own resource places it by a component with
   * no transform.
   */
  lemma MeshPlacement(n: Node, id: nat, precision: nat)
    ensures var rs := ObjectResources(n, id, precision);
            var mesh := if n.mesh.Some? then Some(MeshElementOf(n.mesh.value, precision)) else None;
            (!HasMesh(n) ==> rs[0].mesh.None?) &&
            (HasMesh(n) && rs[0].components == [] ==> rs[0].mesh == mesh) &&
            (HasMesh(n) && rs[0].components != [] ==>
               rs[0].mesh.None? && rs[|rs| - 1].mesh == mesh && rs[|rs| - 1].components == [] &&
               Component(rs[|rs| - 1].id, None) in rs[0].components)
  {
    var block := ChildrenBlock(n.children, id + 1, precision);
    if !HasMesh(n) {
      ObjectWithoutMesh(n, id, precision);
    } else if block.components == [] {
      ObjectWithOwnMesh(n, id, precision);
    } else {
      WrappedPlacement(n, id, precision);
    }
  }

  /** Proof helper: MeshPlacement for an object whose mesh goes into a resource of its own. */
  lemma WrappedPlacement(n: Node, id: nat, precision: nat)
    requires HasMesh(n) && ChildrenBlock(n.children, id + 1, precision).components != []
    ensures var rs := ObjectResources(n, id, precision);
            rs[0].components != [] && rs[0].mesh.None? &&
            rs[|rs| - 1].mesh == Some(MeshElementOf(n.mesh.value, precision)) && rs[|rs| - 1].components == [] &&
            Component(rs[|rs| - 1].id, None) in rs[0].components
  {
    var block := ChildrenBlock(n.children, id + 1, precision);
    var meshId := id + 1 + |block.resources|;
    var top := ObjectResource(id, None, block.components + [Component(meshId, None)], ObjectMetadata(n));
    var meshResource := ObjectResource(meshId, Some(MeshElementOf(n.mesh.value, precision)), [], NoMetadata);
    ObjectWithWrappedMesh(n, id, precision);
    var rs := ObjectResources(n, id, precision);
    assert rs == [top] + block.resources + [meshResource];
    assert rs[0] == top && rs[|rs| - 1] == meshResource;
    assert top.components[|block.components|] == Component(meshId, None);
  }

  /** The resources and components of the eligible objects among cs, ids counted from start. */
  function ChildrenBlock(cs: seq<Node>, start: nat, precision: nat): ChildBlock
    decreases cs, 0
  {
    if cs == [] then ChildBlock([], [])
    else BlockAfter(ChildrenBlock(cs[..|cs| - 1], start, precision), cs[|cs| - 1], start, precision)
  }

  /**
   * The block after one more child: an eligible child adds its resources,
   * with ids following those of the block so far, and a component placing
   * it; any other child adds nothing.
   */
  function BlockAfter(front: ChildBlock, child: Node, start: nat, precision: nat): ChildBlock
    decreases child, 2
  {
    if Eligible(child) then
      var childId := start + |front.resources|;
      ChildBlock(front.resources + ObjectResources(child, childId, precision),
                 front.components + [Component(childId, TransformAttribute(child.transform, precision))])
    else front
  }

  /** Proof helper: ChildrenBlock unfolded once at cs[..i + 1]. */
  lemma ChildrenBlockStep(cs: seq<Node>, i: nat, start: nat, precision: nat)
    requires i < |cs|
    ensures ChildrenBlock(cs[..i + 1], start, precision) == BlockAfter(ChildrenBlock(cs[..i], start, precision), cs[i], start, precision)
  {
    var next := cs[..i + 1];
    assert next[..|next| - 1] == cs[..i];
    assert next[|next| - 1] == cs[i];
  }

  /** The eligible objects among cs, in order: the ones that get a resource and a component. */
  function EligibleNodes(cs: seq<Node>): (es: seq<Node>)
    ensures |es| <= |cs|
    ensures forall n :: n in es <==> n in cs && Eligible(n)
  {
    if cs == [] then []
    else
      var front := EligibleNodes(cs[..|cs| - 1]);
      var last := cs[|cs| - 1];
      assert cs == cs[..|cs| - 1] + [last];
      if Eligible(last) then front + [last] else front
  }

  // ---------------------------------------------------------------------
  // Shape of the written resources

  /** A resource never holds a mesh and components at once. */
  predicate NotMixed(r: ObjectResource)
  {
    r.mesh.None? || r.components == []
  }

  /**
   * A resource handed out as id `id` in a run ending before `end`: it does
   * not mix a mesh with components, and each of its components points to a
   * later resource of the run.
   */
  predicate ResourceFits(r: ObjectResource, id: nat, end: nat)
  {
    r.id == id && NotMixed(r) && forall c :: c in r.components ==> id < c.objectId < end
  }

  /**
   * A run of resources as the counter hands them out from `start`:
   * consecutive ids, no resource mixing a mesh with components, and every
   * component pointing to a later resource of the same run.
   */
  predicate WellFormedRun(rs: seq<ObjectResource>, start: nat)
  {
    forall k :: 0 <= k < |rs| ==> ResourceFits(rs[k], start + k, start + |rs|)
  }

  /**
   * The children's block: a well-formed run, and components in the order of
   * the children with strictly increasing ids inside the run.
   */
  predicate WellFormedBlock(b: ChildBlock, start: nat)
  {
    WellFormedRun(b.resources, start) &&
    (forall k :: 0 <= k < |b.components| ==> start <= b.components[k].objectId < start + |b.resources|) &&
    (forall i, j :: 0 <= i < j < |b.components| ==> b.components[i].objectId < b.components[j].objectId)
  }

  lemma RunConcat(a: seq<ObjectResource>, start: nat, b: seq<ObjectResource>)
    requires WellFormedRun(a, start) && WellFormedRun(b, start + |a|)
    ensures WellFormedRun(a + b, start)
  {
    var ab := a + b;
    forall k | 0 <= k < |ab|
      ensures ResourceFits(ab[k], start + k, start + |ab|)
    {
      if k < |a| {
        assert ab[k] == a[k];
        FitsWider(a[k], start + k, start + |a|, start + |ab|);
      } else {
        assert ab[k] == b[k - |a|];
      }
    }
  }

  lemma FitsWider(r: ObjectResource, id: nat, end: nat, end': nat)
    requires ResourceFits(r, id, end) && end <= end'
    ensures ResourceFits(r, id, end')
  {
  }

  lemma RunCons(top: ObjectResource, rest: seq<ObjectResource>, id: nat)
    requires ResourceFits(top, id, id + 1 + |rest|)
    requires WellFormedRun(rest, id + 1)
    ensures WellFormedRun([top] + rest, id)
  {
    var rs := [top] + rest;
    forall k | 0 <= k < |rs|
      ensures ResourceFits(rs[k], id + k, id + |rs|)
    {
      if k > 0 {
        assert rs[k] == rest[k - 1];
      }
    }
  }

  /**
   * Whatever the tree, the resources written for an object have consecutive
   * ids from the counter, none holds both a mesh and components, and every
   * component refers to a resource written after the one holding it, within
   * the same call.
   */
  lemma {:induction false} ObjectResourcesWellFormed(n: Node, id: nat, precision: nat)
    ensures WellFormedRun(ObjectResources(n, id, precision), id)
    decreases n, 1
  {
    ChildrenBlockWellFormed(n.children, id + 1, precision);
    if !HasMesh(n) {
      WithoutMeshWellFormed(n, id, precision);
    } else if ChildrenBlock(n.children, id + 1, precision).components == [] {
      OwnMeshWellFormed(n, id, precision);
    } else {
      WrappedMeshWellFormed(n, id, precision);
    }
  }

  lemma WithoutMeshWellFormed(n: Node, id: nat, precision: nat)
    requires !HasMesh(n) && WellFormedBlock(ChildrenBlock(n.children, id + 1, precision), id + 1)
    ensures WellFormedRun(ObjectResources(n, id, precision), id)
  {
    var block := ChildrenBlock(n.children, id + 1, precision);
    ObjectWithoutMesh(n, id, precision);
    PlainWellFormed(block, id, ObjectResource(id, None, block.components, ObjectMetadata(n)), ObjectResources(n, id, precision));
  }

  lemma OwnMeshWellFormed(n: Node, id: nat, precision: nat)
    requires HasMesh(n) && ChildrenBlock(n.children, id + 1, precision).components == []
    requires WellFormedBlock(ChildrenBlock(n.children, id + 1, precision), id + 1)
    ensures WellFormedRun(ObjectResources(n, id, precision), id)
  {
    var block := ChildrenBlock(n.children, id + 1, precision);
    ObjectWithOwnMesh(n, id, precision);
    PlainWellFormed(block, id, ObjectResource(id, Some(MeshElementOf(n.mesh.value, precision)), [], ObjectMetadata(n)),
                    ObjectResources(n, id, precision));
  }

  lemma WrappedMeshWellFormed(n: Node, id: nat, precision: nat)
    requires HasMesh(n) && ChildrenBlock(n.children, id + 1, precision).components != []
    requires WellFormedBlock(ChildrenBlock(n.children, id + 1, precision), id + 1)
    ensures WellFormedRun(ObjectResources(n, id, precision), id)
  {
    var block := ChildrenBlock(n.children, id + 1, precision);
    var meshId := id + 1 + |block.resources|;
    var top := ObjectResource(id, None, block.components + [Component(meshId, None)], ObjectMetadata(n));
    var meshResource := ObjectResource(meshId, Some(MeshElementOf(n.mesh.value, precision)), [], NoMetadata);
    ObjectWithWrappedMesh(n, id, precision);
    assert ObjectResources(n, id, precision) == [top] + block.resources + [meshResource];
    WrappedWellFormed(block, id, top, meshResource, ObjectResources(n, id, precision));
  }

  /** An object's own resource `top`, holding the children's components, followed by the children's block. */
  lemma PlainWellFormed(block: ChildBlock, id: nat, top: ObjectResource, rs: seq<ObjectResource>)
    requires WellFormedBlock(block, id + 1)
    requires top.id == id && NotMixed(top) && top.components == block.components
    requires rs == [top] + block.resources
    ensures WellFormedRun(rs, id)
  {
    forall c | c in top.components ensures id < c.objectId < id + 1 + |block.resources| {
      var k :| 0 <= k < |top.components| && top.components[k] == c;
      assert c == block.components[k];
    }
    RunCons(top, block.resources, id);
  }

  /**
   * An object's own resource `top`, holding the children's components and
   * one more referring to `meshResource`, followed by the children's block
   * and then meshResource.
   */
  lemma WrappedWellFormed(block: ChildBlock, id: nat, top: ObjectResource, meshResource: ObjectResource, rs: seq<ObjectResource>)
    requires WellFormedBlock(block, id + 1)
    requires meshResource.id == id + 1 + |block.resources| && meshResource.components == []
    requires top.id == id && NotMixed(top)
    requires top.components == block.components + [Component(id + 1 + |block.resources|, None)]
    requires rs == [top] + block.resources + [meshResource]
    ensures WellFormedRun(rs, id)
  {
    var rest := block.resources + [meshResource];
    RunConcat(block.resources, id + 1, [meshResource]);
    forall c | c in top.components ensures id < c.objectId < id + 1 + |rest| {
      var k :| 0 <= k < |top.components| && top.components[k] == c;
      if k < |block.components| {
        assert c == block.components[k];
      }
    }
    RunCons(top, rest, id);
    assert [top] + block.resources + [meshResource] == [top] + rest;
  }

  lemma {:induction false} ChildrenBlockWellFormed(cs: seq<Node>, start: nat, precision: nat)
    ensures WellFormedBlock(ChildrenBlock(cs, start, precision), start)
    decreases cs, 0
  {
    if cs != [] {
      ChildrenBlockWellFormed(cs[..|cs| - 1], start, precision);
      ChildrenBlockLast(cs, start, precision);
      BlockAfterWellFormed(ChildrenBlock(cs[..|cs| - 1], start, precision), cs[|cs| - 1], start, precision);
    }
  }

  /** The block of a non-empty list of children is the block of all but the last, after the last. */
  lemma ChildrenBlockLast(cs: seq<Node>, start: nat, precision: nat)
    requires cs != []
    ensures ChildrenBlock(cs, start, precision) == BlockAfter(ChildrenBlock(cs[..|cs| - 1], start, precision), cs[|cs| - 1], start, precision)
  {
  }

  /** An eligible child appends its resources, with ids after the block's, and one component placing it. */
  lemma BlockAfterEligible(front: ChildBlock, child: Node, start: nat, precision: nat)
    requires Eligible(child)
    ensures var childId := start + |front.resources|;
            BlockAfter(front, child, start, precision) ==
              ChildBlock(front.resources + ObjectResources(child, childId, precision),
                         front.components + [Component(childId, TransformAttribute(child.transform, precision))])
  {
  }

  /** One more child keeps the block well-formed. */
  lemma {:induction false} BlockAfterWellFormed(front: ChildBlock, child: Node, start: nat, precision: nat)
    requires WellFormedBlock(front, start)
    ensures WellFormedBlock(BlockAfter(front, child, start, precision), start)
    decreases child, 2
  {
    if Eligible(child) {
      ObjectResourcesWellFormed(child, start + |front.resources|, precision);
    }
    BlockAfterGivenRun(front, child, start, precision);
  }

  /** BlockAfterWellFormed, given that the child's own run is well-formed when it is eligible. */
  lemma BlockAfterGivenRun(front: ChildBlock, child: Node, start: nat, precision: nat)
    requires WellFormedBlock(front, start)
    requires Eligible(child) ==> WellFormedRun(ObjectResources(child, start + |front.resources|, precision), start + |front.resources|)
    ensures WellFormedBlock(BlockAfter(front, child, start, precision), start)
  {
    if Eligible(child) {
      BlockAfterEligible(front, child, start, precision);
      BlockStep(front, start, ObjectResources(child, start + |front.resources|, precision),
                TransformAttribute(child.transform, precision), BlockAfter(front, child, start, precision));
    } else {
      BlockAfterSkip(front, child, start, precision);
      SameBlock(front, BlockAfter(front, child, start, precision), start);
    }
  }

  /** A child that is not eligible leaves the block as it is. */
  lemma BlockAfterSkip(front: ChildBlock, child: Node, start: nat, precision: nat)
    requires !Eligible(child)
    ensures BlockAfter(front, child, start, precision) == front
  {
  }

  lemma SameBlock(a: ChildBlock, b: ChildBlock, start: nat)
    requires a == b && WellFormedBlock(a, start)
    ensures WellFormedBlock(b, start)
  {
  }

  lemma BlockStep(front: ChildBlock, start: nat, rs: seq<ObjectResource>, transform: Option<string>, b: ChildBlock)
    requires WellFormedBlock(front, start)
    requires |rs| >= 1 && WellFormedRun(rs, start + |front.resources|)
    requires b == ChildBlock(front.resources + rs, front.components + [Component(start + |front.resources|, transform)])
    ensures WellFormedBlock(b, start)
  {
    RunConcat(front.resources, start, rs);
  }

  /** One component per eligible child, in order, each carrying that child's transform relative to its parent. */
  lemma {:induction false} ChildComponents(cs: seq<Node>, start: nat, precision: nat)
    ensures var b := ChildrenBlock(cs, start, precision);
            var es := EligibleNodes(cs);
            |b.components| == |es| &&
            forall k :: 0 <= k < |es| ==> b.components[k].transform == TransformAttribute(es[k].transform, precision)
  {
    if cs != [] {
      ChildComponents(cs[..|cs| - 1], start, precision);
      var front := ChildrenBlock(cs[..|cs| - 1], start, precision);
      assert ChildrenBlock(cs, start, precision) == BlockAfter(front, cs[|cs| - 1], start, precision);
    }
  }

  /**
   * The eligible list is the in-order filter of the children: the eligible
   * objects of two lists concatenated are those of the first followed by
   * those of the second, and a single object is kept exactly when it is
   * eligible.
   */
  lemma {:induction false} EligibleFilter(a: seq<Node>, b: seq<Node>, x: Node)
    ensures EligibleNodes(a + b) == EligibleNodes(a) + EligibleNodes(b)
    ensures EligibleNodes([x]) == (if Eligible(x) then [x] else [])
    decreases |b|
  {
    if b != [] {
      var y := b[|b| - 1];
      var b' := b[..|b| - 1];
      assert (a + b)[..|a + b| - 1] == a + b';
      assert (a + b)[|a + b| - 1] == y;
      EligibleFilter(a, b', x);
    } else {
      assert a + b == a;
    }
    assert [x][..0] == [];
  }

  /** `piece` occurs in s from position `from` on. */
  ghost predicate SliceAt<T>(s: seq<T>, from: nat, piece: seq<T>)
  {
    from + |piece| <= |s| && s[from..from + |piece|] == piece
  }

  /**
   * Component k refers to the resources written for object k of es: its id
   * is the position, counted from start, where those resources sit in rs.
   */
  ghost predicate ComponentsOwnResources(comps: seq<Component>, es: seq<Node>, rs: seq<ObjectResource>, start: nat, precision: nat)
  {
    |comps| == |es| &&
    forall k :: 0 <= k < |comps| ==>
      start <= comps[k].objectId &&
      SliceAt(rs, comps[k].objectId - start, ObjectResources(es[k], comps[k].objectId, precision))
  }

  /**
   * The component of eligible child k places that child: its object id is
   * the id write_object_resource returned for the child, and the resources
   * written for the child sit in the block exactly where that id says,
   * starting with the child's own resource.
   */
  lemma {:induction false} ChildComponentsReferToOwnResources(cs: seq<Node>, start: nat, precision: nat)
    ensures var b := ChildrenBlock(cs, start, precision);
            ComponentsOwnResources(b.components, EligibleNodes(cs), b.resources, start, precision)
  {
    if cs != [] {
      var prefix := cs[..|cs| - 1];
      var last := cs[|cs| - 1];
      var front := ChildrenBlock(prefix, start, precision);
      ChildrenBlockLast(cs, start, precision);
      if Eligible(last) {
        var id := start + |front.resources|;
        var c := Component(id, TransformAttribute(last.transform, precision));
        BlockAfterEligible(front, last, start, precision);
        assert ChildrenBlock(cs, start, precision) == ChildBlock(front.resources + ObjectResources(last, id, precision), front.components + [c]);
        assert EligibleNodes(cs) == EligibleNodes(prefix) + [last];
        ChildComponentsReferToOwnResources(prefix, start, precision);
        ComponentStep(front.components, EligibleNodes(prefix), front.resources, last, c, start, precision);
      } else {
        BlockAfterSkip(front, last, start, precision);
        assert ChildrenBlock(cs, start, precision) == front;
        assert EligibleNodes(cs) == EligibleNodes(prefix);
        ChildComponentsReferToOwnResources(prefix, start, precision);
      }
    }
  }

  /** Proof helper: one more child's resources and its component keep ComponentsOwnResources. */
  lemma ComponentStep(comps: seq<Component>, es: seq<Node>, front: seq<ObjectResource>, last: Node,
                      c: Component, start: nat, precision: nat)
    requires ComponentsOwnResources(comps, es, front, start, precision)
    requires c.objectId == start + |front|
    ensures ComponentsOwnResources(comps + [c], es + [last], front + ObjectResources(last, c.objectId, precision), start, precision)
  {
    var own := ObjectResources(last, c.objectId, precision);
    var comps' := comps + [c];
    var es' := es + [last];
    forall k | 0 <= k < |comps'|
      ensures start <= comps'[k].objectId &&
              SliceAt(front + own, comps'[k].objectId - start, ObjectResources(es'[k], comps'[k].objectId, precision))
    {
      if k < |comps| {
        assert comps'[k] == comps[k] && es'[k] == es[k];
        SliceAtExtend(front, comps[k].objectId - start, ObjectResources(es[k], comps[k].objectId, precision), own);
      } else {
        assert comps'[k] == c && es'[k] == last;
        SliceAtEnd(front, own);
      }
    }
  }

  /** Proof helper: a slice stays in place when more is appended. */
  lemma SliceAtExtend<T>(s: seq<T>, from: nat, piece: seq<T>, more: seq<T>)
    requires SliceAt(s, from, piece)
    ensures SliceAt(s + more, from, piece)
  {
    assert (s + more)[from..from + |piece|] == s[from..from + |piece|];
  }

  /** Proof helper: an appended piece sits right after s. */
  lemma SliceAtEnd<T>(s: seq<T>, piece: seq<T>)
    ensures SliceAt(s + piece, |s|, piece)
  {
    assert (s + piece)[|s|..|s| + |piece|] == piece;
  }

  // ---------------------------------------------------------------------
  // Every mesh is written exactly once

  function MeshCount(rs: seq<ObjectResource>): nat
  {
    if rs == [] then 0 else MeshCount(rs[..|rs| - 1]) + (if rs[|rs| - 1].mesh.Some? then 1 else 0)
  }

  lemma {:induction false} MeshCountAppend(a: seq<ObjectResource>, b: seq<ObjectResource>)
    ensures MeshCount(a + b) == MeshCount(a) + MeshCount(b)
    decreases |b|
  {
    if b != [] {
      assert (a + b)[..|a + b| - 1] == a + b[..|b| - 1];
      MeshCountAppend(a, b[..|b| - 1]);
    } else {
      assert a + b == a;
    }
  }

  /** The objects with a mesh among n and its descendants reached through eligible objects. */
  function MeshObjects(n: Node): nat
    decreases n, 1
  {
    (if HasMesh(n) then 1 else 0) + ChildrenMeshObjects(n.children)
  }

  function ChildrenMeshObjects(cs: seq<Node>): nat
    decreases cs, 0
  {
    if cs == [] then 0
    else ChildrenMeshObjects(cs[..|cs| - 1]) + (if Eligible(cs[|cs| - 1]) then MeshObjects(cs[|cs| - 1]) else 0)
  }

  /** The written resources hold exactly one <mesh> per object that has mesh data, wrapped or not. */
  lemma {:induction false} ObjectMeshCount(n: Node, id: nat, precision: nat)
    ensures MeshCount(ObjectResources(n, id, precision)) == MeshObjects(n)
    decreases n, 1
  {
    var block := ChildrenBlock(n.children, id + 1, precision);
    ChildrenMeshCount(n.children, id + 1, precision);
    var meshId := id + 1 + |block.resources|;
    if !HasMesh(n) {
      ObjectWithoutMesh(n, id, precision);
      MeshCountCons(ObjectResource(id, None, block.components, ObjectMetadata(n)), block.resources);
    } else if block.components == [] {
      ObjectWithOwnMesh(n, id, precision);
      MeshCountCons(ObjectResource(id, Some(MeshElementOf(n.mesh.value, precision)), [], ObjectMetadata(n)), block.resources);
    } else {
      ObjectWithWrappedMesh(n, id, precision);
      MeshCountWrapped(ObjectResource(id, None, block.components + [Component(meshId, None)], ObjectMetadata(n)),
                       block.resources, ObjectResource(meshId, Some(MeshElementOf(n.mesh.value, precision)), [], NoMetadata));
    }
  }

  lemma MeshCountCons(top: ObjectResource, rest: seq<ObjectResource>)
    ensures MeshCount([top] + rest) == (if top.mesh.Some? then 1 else 0) + MeshCount(rest)
  {
    MeshCountAppend([top], rest);
    assert [top][..0] == [];
  }

  lemma MeshCountWrapped(top: ObjectResource, rest: seq<ObjectResource>, meshResource: ObjectResource)
    requires top.mesh.None? && meshResource.mesh.Some?
    ensures MeshCount([top] + rest + [meshResource]) == MeshCount(rest) + 1
  {
    MeshCountCons(top, rest);
    MeshCountAppend([top] + rest, [meshResource]);
    MeshCountCons(meshResource, []);
    assert [meshResource] + [] == [meshResource];
  }

  lemma {:induction false} ChildrenMeshCount(cs: seq<Node>, start: nat, precision: nat)
    ensures MeshCount(ChildrenBlock(cs, start, precision).resources) == ChildrenMeshObjects(cs)
    decreases cs, 0
  {
    if cs != [] {
      ChildrenMeshCount(cs[..|cs| - 1], start, precision);
      ChildrenBlockLast(cs, start, precision);
      BlockAfterMeshCount(ChildrenBlock(cs[..|cs| - 1], start, precision), cs[|cs| - 1], start, precision);
    }
  }

  /** One more child adds the meshes of its subtree when eligible, and none otherwise. */
  lemma {:induction false} BlockAfterMeshCount(front: ChildBlock, child: Node, start: nat, precision: nat)
    ensures MeshCount(BlockAfter(front, child, start, precision).resources) ==
            MeshCount(front.resources) + (if Eligible(child) then MeshObjects(child) else 0)
    decreases child, 2
  {
    if Eligible(child) {
      var childId := start + |front.resources|;
      var rs := ObjectResources(child, childId, precision);
      assert BlockAfter(front, child, start, precision).resources == front.resources + rs;
      ObjectMeshCount(child, childId, precision);
      MeshCountAppend(front.resources, rs);
    }
  }
}
