/**
 * The material group (write_materials): every distinct material of the
 * objects' material slots, numbered in the order it is first met; no group
 * and no numbering at all when no object has a material.
 */
module Materials {
  import opened Scene

  /** The material slots of all objects, object by object. */
  function AllSlots(nodes: seq<Node>): (slots: seq<string>)
    ensures |nodes| == 0 ==> slots == []
  {
    if nodes == [] then [] else AllSlots(nodes[..|nodes| - 1]) + nodes[|nodes| - 1].materialSlots
  }

  /** The names with every repetition after the first dropped. */
  function FirstOccurrences(names: seq<string>): (distinct: seq<string>)
    ensures forall x :: x in distinct <==> x in names
    ensures forall i, j :: 0 <= i < j < |distinct| ==> distinct[i] != distinct[j]
  {
    if names == [] then []
    else
      var front := FirstOccurrences(names[..|names| - 1]);
      var last := names[|names| - 1];
      assert names == names[..|names| - 1] + [last];
      if last in front then front else front + [last]
  }

  /** The materials of the group, in first-encounter order. */
  function MaterialNames(nodes: seq<Node>): seq<string>
  {
    FirstOccurrences(AllSlots(nodes))
  }

  /** Each name mapped to its position in the list. */
  function IndexMap(names: seq<string>): (m: map<string, nat>)
    ensures forall x :: x in m <==> x in names
  {
    if names == [] then map[]
    else
      var front := names[..|names| - 1];
      assert names == front + [names[|names| - 1]];
      IndexMap(front)[names[|names| - 1] := |front|]
  }

  /** The index of the first occurrence of x. */
  function Position(names: seq<string>, x: string): (i: nat)
    requires x in names
    ensures i < |names| && names[i] == x
    ensures forall k :: 0 <= k < i ==> names[k] != x
  {
    if names[0] == x then 0 else 1 + Position(names[1..], x)
  }

  // ---------------------------------------------------------------------
  // One more slot or object

  lemma {:induction false} AllSlotsStep(nodes: seq<Node>, i: nat)
    requires i < |nodes|
    ensures AllSlots(nodes[..i + 1]) == AllSlots(nodes[..i]) + nodes[i].materialSlots
  {
    assert nodes[..i + 1][..i] == nodes[..i];
  }

  lemma {:induction false} FirstOccurrencesStep(names: seq<string>, x: string)
    ensures FirstOccurrences(names + [x]) ==
              if x in FirstOccurrences(names) then FirstOccurrences(names) else FirstOccurrences(names) + [x]
  {
    assert (names + [x])[..|names|] == names;
  }

  lemma {:induction false} IndexMapStep(names: seq<string>, x: string)
    ensures IndexMap(names + [x]) == IndexMap(names)[x := |names|]
  {
    assert (names + [x])[..|names|] == names;
  }

  /** names are the distinct materials of the slots seen so far, in first-encounter order, and indices numbers them. */
  predicate Numbered(seen: seq<string>, names: seq<string>, indices: map<string, nat>)
  {
    names == FirstOccurrences(seen) && indices == IndexMap(names)
  }

  /** One more slot in write_materials, holding a material already numbered: nothing changes. */
  lemma NumberedKnown(seen: seq<string>, names: seq<string>, indices: map<string, nat>, material: string)
    requires Numbered(seen, names, indices) && material in indices
    ensures Numbered(seen + [material], names, indices)
  {
    FirstOccurrencesStep(seen, material);
  }

  /** One more slot in write_materials, holding a new material: it gets the next index. */
  lemma NumberedNew(seen: seq<string>, names: seq<string>, indices: map<string, nat>, material: string)
    requires Numbered(seen, names, indices) && material !in indices
    ensures Numbered(seen + [material], names + [material], indices[material := |names|])
  {
    FirstOccurrencesStep(seen, material);
    IndexMapStep(names, material);
  }

  // ---------------------------------------------------------------------
  // Properties

  /** In a list without repetitions, each name is mapped to exactly its position. */
  lemma {:induction false} IndexMapPositions(names: seq<string>)
    requires forall i, j :: 0 <= i < j < |names| ==> names[i] != names[j]
    ensures forall k :: 0 <= k < |names| ==> IndexMap(names)[names[k]] == k
  {
    if names != [] {
      var front := names[..|names| - 1];
      IndexMapPositions(front);
      forall k | 0 <= k < |names| ensures IndexMap(names)[names[k]] == k {
        if k < |front| {
          assert names[k] == front[k];
          assert names[k] != names[|names| - 1];
        }
      }
    }
  }

  /** d lists elements of names ordered by where each first occurs in names. */
  predicate InFirstEncounterOrder(d: seq<string>, names: seq<string>)
  {
    (forall k :: 0 <= k < |d| ==> d[k] in names) &&
    forall i, j :: 0 <= i < j < |d| ==> Position(names, d[i]) < Position(names, d[j])
  }

  /** The group lists the materials in the order of their first slot: i < j exactly when material i was met first. */
  lemma {:induction false} FirstEncounterOrder(names: seq<string>)
    ensures InFirstEncounterOrder(FirstOccurrences(names), names)
  {
    if names != [] {
      var front := names[..|names| - 1];
      var last := names[|names| - 1];
      FirstEncounterOrder(front);
      var d := FirstOccurrences(names);
      var df := FirstOccurrences(front);
      forall x | x in front ensures Position(names, x) == Position(front, x) {
        PositionInPrefix(front, last, x);
      }
      assert d == if last in df then df else df + [last];
      forall i, j | 0 <= i < j < |d| ensures Position(names, d[i]) < Position(names, d[j]) {
        assert d[i] == df[i] && df[i] in df && d[i] in front;
        if j < |df| {
          assert d[j] == df[j] && df[j] in df && d[j] in front;
          assert Position(front, df[i]) < Position(front, df[j]);
        } else {
          assert d[j] == last && last !in front;
          PositionUnique(names, last, |front|);
        }
      }
    }
  }

  lemma PositionInPrefix(front: seq<string>, last: string, x: string)
    requires x in front
    ensures Position(front + [last], x) == Position(front, x)
  {
    var names := front + [last];
    var p := Position(front, x);
    assert names[p] == x;
    assert forall k :: 0 <= k < p ==> names[k] != x;
    PositionUnique(names, x, p);
  }

  lemma PositionUnique(names: seq<string>, x: string, p: nat)
    requires p < |names| && names[p] == x
    requires forall k :: 0 <= k < p ==> names[k] != x
    ensures Position(names, x) == p
  {
  }

  /** No material in any slot means no group: the list is empty exactly when every object has no slots. */
  lemma {:induction false} NoMaterialsIff(nodes: seq<Node>)
    ensures MaterialNames(nodes) == [] <==> forall k :: 0 <= k < |nodes| ==> nodes[k].materialSlots == []
  {
    SlotsEmptyIff(nodes);
    var slots := AllSlots(nodes);
    if slots != [] {
      assert slots[0] in slots;
      assert slots[0] in MaterialNames(nodes);
    }
  }

  lemma {:induction false} SlotsEmptyIff(nodes: seq<Node>)
    ensures AllSlots(nodes) == [] <==> forall k :: 0 <= k < |nodes| ==> nodes[k].materialSlots == []
  {
    if nodes != [] {
      var front := nodes[..|nodes| - 1];
      SlotsEmptyIff(front);
      assert forall k :: 0 <= k < |front| ==> front[k] == nodes[k];
    }
  }
}
