/**
 * The build list (write_objects): one build item per object without a parent
 * and of mesh type, in input order, referring to the resource written for
 * that object, with the global scale applied outside its transformation.
 */
module Build {
  import opened Transforms
  import opened Metadata
  import opened Scene
  import opened Resources

  /** The objects that make it into the build list, in order. */
  function TopLevelNodes(nodes: seq<Node>): (tl: seq<Node>)
    ensures |tl| <= |nodes|
    ensures forall n :: n in tl <==> n in nodes && TopLevel(n)
  {
    if nodes == [] then []
    else
      var front := TopLevelNodes(nodes[..|nodes| - 1]);
      var last := nodes[|nodes| - 1];
      assert nodes == nodes[..|nodes| - 1] + [last];
      if TopLevel(last) then front + [last] else front
  }

  /**
   * The top-level list is the in-order filter of the input: the objects of
   * two lists concatenated are those of the first followed by those of the
   * second, and a single object is kept exactly when it is top-level.
   * Together these fix the result: every object of mesh type without a
   * parent appears once per occurrence, in input order, and nothing else.
   */
  lemma {:induction false} TopLevelFilter(a: seq<Node>, b: seq<Node>, x: Node)
    ensures TopLevelNodes(a + b) == TopLevelNodes(a) + TopLevelNodes(b)
    ensures TopLevelNodes([x]) == (if TopLevel(x) then [x] else [])
    decreases |b|
  {
    if b != [] {
      var y := b[|b| - 1];
      var b' := b[..|b| - 1];
      assert (a + b)[..|a + b| - 1] == a + b';
      assert (a + b)[|a + b| - 1] == y;
      TopLevelFilter(a, b', x);
    } else {
      assert a + b == a;
    }
    assert [x][..0] == [];
  }

  /** The resources write_objects appends for nodes, ids counted from start. */
  function ForestResources(nodes: seq<Node>, start: nat, precision: nat): seq<ObjectResource>
  {
    if nodes == [] then []
    else
      var front := ForestResources(nodes[..|nodes| - 1], start, precision);
      var last := nodes[|nodes| - 1];
      if TopLevel(last) then front + ObjectResources(last, start + |front|, precision) else front
  }

  /** The build item of one top-level object whose resource got id `id`. */
  function ItemOf(n: Node, id: nat, globalScale: real, precision: nat): BuildItem
  {
    BuildItem(id, TransformAttribute(Mul(Scale(globalScale), n.transform), precision), MetadataSource(n.name, n.metadata))
  }

  /** The build items write_objects appends for nodes, ids counted from start. */
  function BuildItems(nodes: seq<Node>, start: nat, globalScale: real, precision: nat): seq<BuildItem>
  {
    if nodes == [] then []
    else
      var prefix := nodes[..|nodes| - 1];
      var front := BuildItems(prefix, start, globalScale, precision);
      var last := nodes[|nodes| - 1];
      if TopLevel(last) then front + [ItemOf(last, start + |ForestResources(prefix, start, precision)|, globalScale, precision)]
      else front
  }

  /** The resources of all top-level objects together form one well-formed run. */
  lemma {:induction false} ForestWellFormed(nodes: seq<Node>, start: nat, precision: nat)
    ensures WellFormedRun(ForestResources(nodes, start, precision), start)
  {
    if nodes != [] {
      var prefix := nodes[..|nodes| - 1];
      var front := ForestResources(prefix, start, precision);
      ForestWellFormed(prefix, start, precision);
      var last := nodes[|nodes| - 1];
      if TopLevel(last) {
        var own := ObjectResources(last, start + |front|, precision);
        OwnRun(own, last, start + |front|, precision);
        RunConcat(front, start, own);
        assert ForestResources(nodes, start, precision) == front + own;
      } else {
        assert ForestResources(nodes, start, precision) == front;
      }
    }
  }

  lemma OwnRun(own: seq<ObjectResource>, n: Node, id: nat, precision: nat)
    requires own == ObjectResources(n, id, precision)
    ensures WellFormedRun(own, id)
  {
    ObjectResourcesWellFormed(n, id, precision);
  }

  /**
   * Build item k belongs to top-level object k: it carries the id of a
   * resource of the run, Scale(global) * transform (omitted when that is
   * the identity) and the object's metadata. The ids strictly increase, so
   * no resource is built twice.
   */
  lemma {:induction false} BuildItemsFollowTopLevel(nodes: seq<Node>, start: nat, globalScale: real, precision: nat)
    ensures ItemsMatch(BuildItems(nodes, start, globalScale, precision), TopLevelNodes(nodes),
                       |ForestResources(nodes, start, precision)|, start, globalScale, precision)
  {
    if nodes != [] {
      var prefix := nodes[..|nodes| - 1];
      var last := nodes[|nodes| - 1];
      var front := ForestResources(prefix, start, precision);
      var items := BuildItems(prefix, start, globalScale, precision);
      if TopLevel(last) {
        var own := ObjectResources(last, start + |front|, precision);
        assert ForestResources(nodes, start, precision) == front + own;
        assert TopLevelNodes(nodes) == TopLevelNodes(prefix) + [last];
        assert BuildItems(nodes, start, globalScale, precision) == items + [ItemOf(last, start + |front|, globalScale, precision)];
        BuildItemsFollowTopLevel(prefix, start, globalScale, precision);
        ItemStep(items, TopLevelNodes(prefix), |front|, last, |own|, start, globalScale, precision);
      } else {
        assert ForestResources(nodes, start, precision) == front;
        assert TopLevelNodes(nodes) == TopLevelNodes(prefix);
        assert BuildItems(nodes, start, globalScale, precision) == items;
        BuildItemsFollowTopLevel(prefix, start, globalScale, precision);
      }
    }
  }

  predicate ItemsMatch(items: seq<BuildItem>, tl: seq<Node>, count: nat, start: nat, globalScale: real, precision: nat)
  {
    |items| == |tl| &&
    (forall k :: 0 <= k < |items| ==>
       start <= items[k].objectId < start + count &&
       items[k] == ItemOf(tl[k], items[k].objectId, globalScale, precision)) &&
    (forall i, j :: 0 <= i < j < |items| ==> items[i].objectId < items[j].objectId)
  }

  /** Proof helper: ItemsMatch survives one more item placed after the run so far. */
  lemma ItemStep(items: seq<BuildItem>, tl: seq<Node>, count: nat, last: Node, added: nat,
                 start: nat, globalScale: real, precision: nat)
    requires ItemsMatch(items, tl, count, start, globalScale, precision)
    requires added >= 1
    ensures ItemsMatch(items + [ItemOf(last, start + count, globalScale, precision)], tl + [last],
                       count + added, start, globalScale, precision)
  {
  }

  /**
   * Item k refers to the resources written for object k of tl: its id is
   * the position, counted from start, where those resources sit in the run.
   */
  ghost predicate ItemsOwnResources(items: seq<BuildItem>, tl: seq<Node>, rs: seq<ObjectResource>, start: nat, precision: nat)
  {
    |items| == |tl| &&
    forall k :: 0 <= k < |items| ==>
      start <= items[k].objectId &&
      SliceAt(rs, items[k].objectId - start, ObjectResources(tl[k], items[k].objectId, precision))
  }

  /**
   * The object id of build item k is the id write_object_resource returned
   * for top-level object k: the resources written for that object sit in
   * the run exactly where that id says, starting with the object's own
   * resource.
   */
  lemma {:induction false} BuildItemsReferToOwnResources(nodes: seq<Node>, start: nat, globalScale: real, precision: nat)
    ensures ItemsOwnResources(BuildItems(nodes, start, globalScale, precision), TopLevelNodes(nodes),
                              ForestResources(nodes, start, precision), start, precision)
  {
    if nodes != [] {
      var prefix := nodes[..|nodes| - 1];
      var last := nodes[|nodes| - 1];
      var front := ForestResources(prefix, start, precision);
      var items := BuildItems(prefix, start, globalScale, precision);
      if TopLevel(last) {
        var id := start + |front|;
        var item := ItemOf(last, id, globalScale, precision);
        assert ForestResources(nodes, start, precision) == front + ObjectResources(last, id, precision);
        assert TopLevelNodes(nodes) == TopLevelNodes(prefix) + [last];
        assert BuildItems(nodes, start, globalScale, precision) == items + [item];
        assert item.objectId == id;
        BuildItemsReferToOwnResources(prefix, start, globalScale, precision);
        OwnResourcesStep(items, TopLevelNodes(prefix), front, last, item, start, precision);
      } else {
        assert ForestResources(nodes, start, precision) == front;
        assert TopLevelNodes(nodes) == TopLevelNodes(prefix);
        assert BuildItems(nodes, start, globalScale, precision) == items;
        BuildItemsReferToOwnResources(prefix, start, globalScale, precision);
      }
    }
  }

  /** Proof helper: one more object's resources and its item keep ItemsOwnResources. */
  lemma OwnResourcesStep(items: seq<BuildItem>, tl: seq<Node>, front: seq<ObjectResource>, last: Node,
                         item: BuildItem, start: nat, precision: nat)
    requires ItemsOwnResources(items, tl, front, start, precision)
    requires item.objectId == start + |front|
    ensures ItemsOwnResources(items + [item], tl + [last], front + ObjectResources(last, item.objectId, precision), start, precision)
  {
    var own := ObjectResources(last, item.objectId, precision);
    var items' := items + [item];
    var tl' := tl + [last];
    forall k | 0 <= k < |items'|
      ensures start <= items'[k].objectId &&
              SliceAt(front + own, items'[k].objectId - start, ObjectResources(tl'[k], items'[k].objectId, precision))
    {
      if k < |items| {
        assert items'[k] == items[k] && tl'[k] == tl[k];
        SliceAtExtend(front, items[k].objectId - start, ObjectResources(tl[k], items[k].objectId, precision), own);
      } else {
        assert items'[k] == item && tl'[k] == last;
        SliceAtEnd(front, own);
      }
    }
  }

  /** Proof helper: ForestResources unfolded once at a top-level last object. */
  lemma {:induction false} ForestLast(prefix: seq<Node>, last: Node, start: nat, precision: nat)
    requires TopLevel(last)
    ensures var front := ForestResources(prefix, start, precision);
            ForestResources(prefix + [last], start, precision) == front + ObjectResources(last, start + |front|, precision)
  {
    var nodes := prefix + [last];
    assert nodes[..|nodes| - 1] == prefix;
    assert nodes[|nodes| - 1] == last;
  }

  /** Proof helper: BuildItems unfolded once at a top-level last object. */
  lemma {:induction false} ItemsLast(prefix: seq<Node>, last: Node, start: nat, globalScale: real, precision: nat)
    requires TopLevel(last)
    ensures var front := ForestResources(prefix, start, precision);
            BuildItems(prefix + [last], start, globalScale, precision) ==
              BuildItems(prefix, start, globalScale, precision) + [ItemOf(last, start + |front|, globalScale, precision)]
  {
    var nodes := prefix + [last];
    assert nodes[..|nodes| - 1] == prefix;
    assert nodes[|nodes| - 1] == last;
  }
}
