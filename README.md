# Blender 3MF exporter, modelled in Dafny

This project models the core of the Blender add-on's 3MF exporter
(`io_mesh_3mf.export_3mf.Export3MF`). It covers the behaviour that the
exporter's unit tests state:

- **`format_number`**: writes a real number as text with at most a given number of decimal places. Trailing zeros and a trailing point are dropped, and rounding is half-even.
- **`format_transformation`**: writes the upper three rows of a 4×4 matrix as twelve space-separated numbers, column by column.
- **`unit_scale`**: computes the global scale option times a scene factor. The tests pin that factor down as the scale length when the unit is millimetres and the scale length is not zero, and as the unit's millimetre factor when there is no scale length. For a non-zero scale length with any other unit the model's own choice is to let the scale length win (see the `Units.UnitScale` line under "## Left out").
- **`write_materials`**: collects the distinct materials of all material slots, in first-encounter order, and numbers them. No `<basematerials>` group is written and the mapping is empty when there is no material.
- **`write_object_resource`**:
  - Hands out resource ids from a counter that persists across calls.
  - Writes one `<object>` per object and per eligible descendant.
  - Gives the object's `<object>` its `<mesh>` and one `<component>` per eligible child, carrying the child's transformation relative to its parent.
  - When an object has both a mesh and components, moves the mesh into a separate resource, referenced by one more component.
- **`write_objects`**:
  - Writes the resources of every object of mesh type without a parent.
  - Adds one build `<item>` per such object. The item carries the id of the object's resource, the global scale applied outside the object's transformation (omitted when that is the identity), and the object's metadata.
- **The metadata rules**:
  - A named entity gets a preserved `Title` entry of type `xs:string`.
  - Every other stored entry is written with its own name, value, datatype and preserve flag.
  - No group is written when there is nothing to write.
- **`write_vertices` and `write_triangles`**: write one element per vertex (coordinates formatted at the coordinate precision) or per triangle (indices as plain decimal).

The pure parts are functions with lemmas:

| module | parts |
|---|---|
| `NumberFormat` | number formatting |
| `Transforms` | transformation formatting |
| `Units` | unit scale |
| `Metadata` | metadata |
| `MeshWriter` | vertex and triangle elements |
| `Materials` | material numbering |
| `Resources`, `Build` | the resources and build items as functions of the scene |

A resource or build item records where its metadata comes from: the name and the stored entries of the object, or of its mesh data (`Metadata.MetadataSource`). `Metadata.MetadataGroup` turns that source into the `<metadata>` elements written.

The exporter's state is a class, `Exporter.Exporter`. It holds the id counter, the resource list, the build list and the material group. Its methods `WriteObjectResource`, `WriteObjects` and `WriteMaterials` update that state in place. Each method is proved against the specification functions above.

`FormattingExamples` and `ExportExamples` restate the scenarios of the unit tests on the model. Each fixes what the test sets and takes the rest of the scene as parameters.

## Model

| member | source | states |
|---|---|---|
| NumberFormat.FormatNumber | test/export_3mf.py:605-620 | format_number: the value rounded half-even to `precision` places, written in plain decimal with trailing fraction zeros and a trailing point dropped; its properties are FormatRoundTrip, FormatIsCanonical, RoundedIsNearest, FormatWhole and ScaledTextExtraPrecision |
| NumberFormat.FormatRoundTrip | test/export_3mf.py:605-620 | the text of format_number reads back as a decimal with at most `precision` fraction digits and no trailing fraction zero; its value is the rounded value and lies within half a unit of the last place from the input |
| NumberFormat.FormatIsCanonical | test/export_3mf.py:605-620 | the text is non-empty and contains only digits, '-' and '.'; it starts with '-' exactly when the rounded value is negative; after the sign, a leading '0' is the whole integer part (alone or followed by the point); it never ends in '.' nor, after a point, in '0'; at precision 0 it has no point |
| NumberFormat.RoundedIsNearest | test/export_3mf.py:605-620 | rounding to `precision` places moves the scaled value by at most half a unit |
| NumberFormat.FormatWhole | test/export_3mf.py:609-617 | a whole number prints as a bare integer (sign and digits) at every precision |
| NumberFormat.ScaledTextExtraPrecision | test/export_3mf.py:614 | asking for more places than a value has gives the same text as asking for exactly its places |
| FormattingExamples.FormatNumberTwoPlaces | test/export_3mf.py:611 | 3.14159 at 2 places is "3.14" |
| FormattingExamples.FormatNumberOnePlace | test/export_3mf.py:613 | 30.12 at 1 place is "30.1" |
| FormattingExamples.FormatNumberZeroPlaces | test/export_3mf.py:612-616 | at 0 places, 3.14159 is "3", 0 is "0" and 0.1 is "0" |
| FormattingExamples.FormatNumberTenPlaces | test/export_3mf.py:614 | 3.14159 at 10 places is "3.14159", without padding zeros |
| FormattingExamples.FormatTenths | test/export_3mf.py:543-565 | a number of tenths prints with one decimal place at most, at every positive precision |
| Transforms.FormatTransformation | test/export_3mf.py:503-525 | format_transformation: the twelve cells of the upper three rows, column by column, each through format_number, joined by single spaces; its properties are TransformationWords, FourthRowIgnored, IdentityText and WholeScaleText |
| Transforms.TransformAttribute | test/export_3mf.py:188-211 | the transform attribute of an item or component: absent for the identity, the formatted transformation otherwise; ExportExamples.SingleObject shows the omission and ExportExamples.ScaledChildComponent the scale-2 text |
| Transforms.TransformationWords | test/export_3mf.py:519-525 | the transformation text splits at its spaces into exactly twelve numbers; number k is cell (k mod 3, k div 3) of the matrix, formatted, so the order is column by column over the upper three rows |
| Transforms.FourthRowIgnored | test/export_3mf.py:519-525 | matrices that agree on their upper three rows give the same text |
| Transforms.SplitJoin | test/export_3mf.py:519-525 | joining space-free words with single spaces and splitting again gives back the words |
| Transforms.IdentityText | test/export_3mf.py:512-517 | the identity matrix prints as "1 0 0 0 1 0 0 0 1 0 0 0" at every precision |
| Transforms.WholeScaleText | test/export_3mf.py:408-429 | a uniform scale by a whole number n prints as "n 0 0 0 n 0 0 0 n 0 0 0" |
| Transforms.ScaleOutside | test/export_3mf.py:286-313 | multiplying by Scale(f) on the left scales the upper three rows by f and keeps the fourth |
| Transforms.IdentityNeutral | test/export_3mf.py:188-211 | the identity on the left changes nothing, so global scale 1 leaves the transformation as it is |
| FormattingExamples.CoordinatesText | test/export_3mf.py:519-525 | the matrix with cells r.c prints as "0 1 2 0.1 1.1 2.1 0.2 1.2 2.2 0.3 1.3 2.3" |
| Units.MillimetresPer | test/export_3mf.py:121-140 | the conversion table: millimetres per unit of each scene length unit, always positive; ConversionTableConsistent checks its entries against the units' definitions |
| Units.UnitScale | test/export_3mf.py:83-145 | with no scale length the factor is the global scale times the unit's millimetre factor; in millimetres it is the global scale times the scale length, or times 1 when that is 0 |
| Units.UnitScaleGlobal | test/export_3mf.py:83-96 | no scale length, millimetres: the factor is the global scale |
| Units.UnitScaleScene | test/export_3mf.py:98-111 | global scale 1, millimetres, non-zero scale length: the factor is the scale length |
| Units.UnitScaleConversion | test/export_3mf.py:113-145 | global scale 1, no scale length: the factor is the unit's entry in the conversion table |
| Units.ConversionTableConsistent | test/export_3mf.py:124-140 | the table's entries agree with the units' definitions: 1000 thou per inch, 12 inches per foot, 3 feet per yard, 22 yards per chain, 10 chains per furlong, 8 furlongs per mile, 25.4 mm per inch, and powers of ten between the metric units |
| Exporter.Exporter.WriteMaterials | test/export_3mf.py:147-173 | the returned mapping is the numbering of the distinct materials in first-encounter order; a group is written exactly when there is a material; the id counter, resources and build are unchanged |
| Exporter.NumberMaterials | test/export_3mf.py:147-173 | after one object's slots, the names stay the first occurrences of every slot seen so far and the mapping stays their numbering |
| Exporter.NumberSlot | test/export_3mf.py:147-173 | one slot: a material not numbered yet gets the next index, and the numbering stays that of every slot seen so far |
| Materials.MaterialNames | test/export_3mf.py:147-173 | the distinct material names of all slots of all objects, in first-encounter order; its properties are FirstOccurrences, FirstEncounterOrder and NoMaterialsIff |
| Materials.NoMaterialsIff | test/export_3mf.py:147-173 | the material list is empty exactly when no object has a material slot |
| Materials.FirstOccurrences | test/export_3mf.py:147-173 | the distinct list holds exactly the names met, each once |
| Materials.FirstEncounterOrder | test/export_3mf.py:147-173 | the distinct materials are ordered by where each first occurs among the slots |
| Materials.IndexMapPositions | test/export_3mf.py:147-173 | in the numbering of a list without repetitions, every material is mapped to its position in the list |
| Materials.NumberedNew | test/export_3mf.py:147-173 | a slot with a material not numbered yet appends it to the list and gives it the next index |
| Materials.NumberedKnown | test/export_3mf.py:147-173 | a slot with a material already numbered changes nothing |
| ExportExamples.NoMaterialsWritten | test/export_3mf.py:147-173 | for objects without material slots, none at all included, write_materials returns an empty mapping and writes no group |
| Exporter.Exporter.constructor | test/export_3mf.py:41-47 | a new exporter has the given coordinate precision, id counter 1, and no resources, build items or material group |
| Exporter.Exporter.WriteObjectResource | test/export_3mf.py:349-471 | returns the counter's id, which is at least 1 and larger than every id handed out before, together with the object's transformation; appends exactly the resources of the object tree; keeps resource k at id k+1 and the counter one past the last id; build and materials unchanged |
| Exporter.Exporter.WriteChildren | test/export_3mf.py:408-471 | the children loop appends the resources of every eligible child in order and returns one component per eligible child |
| Exporter.Exporter.WriteChild | test/export_3mf.py:408-429 | an eligible child's resources follow those of the children before it and its component refers to the child's id with its transformation; any other child changes nothing |
| Exporter.Exporter.PlaceObject | test/export_3mf.py:385-471 | the object's own resource gets the mesh when there are no components, and otherwise the components plus a reference to a new resource holding the mesh |
| Exporter.Exporter.WriteObjects | test/export_3mf.py:175-313 | appends the resources of every top-level object and one build item each, as the specification functions state; keeps the id invariant; materials unchanged |
| Exporter.Exporter.WriteObject | test/export_3mf.py:175-284 | a top-level object adds its resources and its item; any other object adds nothing |
| Exporter.Exporter.WriteBuildItem | test/export_3mf.py:286-347 | the item refers to the id the object's resource got, with Scale(global) times the transformation and the object's metadata |
| Scene.HasMesh | test/export_3mf.py:385-429 | an object's resource gets a <mesh> when the object has mesh data with at least one vertex; ObjectMeshCount and MeshPlacement state where those meshes are written |
| Resources.ObjectMetadata | test/export_3mf.py:473-510 | the metadata of an object's resource is read from its mesh data whenever the object has mesh data, even mesh data without vertices, and from the object otherwise; ExportExamples.MeshMetadataExample shows the mesh case |
| Resources.ObjectResources | test/export_3mf.py:349-471 | the object's own resource comes first and carries the id given |
| Resources.ObjectResourcesWellFormed | test/export_3mf.py:349-471 | the resources of one object tree have consecutive ids from the one given; none holds both a mesh and components; every component refers to a later resource of the same call |
| Resources.ChildrenBlockWellFormed | test/export_3mf.py:408-471 | the children's resources have consecutive ids, and each component refers to one of them |
| Resources.ChildComponents | test/export_3mf.py:408-429 | there is one component per eligible child, in order, carrying that child's transformation relative to its parent |
| Resources.EligibleFilter | test/export_3mf.py:408-429 | the eligible children are the in-order filter of the children: the list distributes over concatenation, and a single child is kept exactly when it is eligible; so the order of ChildComponents is the children's order |
| Resources.ChildComponentsReferToOwnResources | test/export_3mf.py:408-429 | the component of eligible child k carries the id write_object_resource returned for that child: the resources written for the child sit in the block from that id on, the child's own resource first |
| Resources.ObjectMeshCount | test/export_3mf.py:431-471 | the resources of an object tree hold exactly one mesh per object with mesh data, wrapped or not |
| Resources.ChildrenMeshCount | test/export_3mf.py:431-471 | the children's resources hold exactly one mesh per eligible descendant with mesh data |
| Resources.MeshPlacement | test/export_3mf.py:368-471 | an object without a mesh has none in its own resource; an object with a mesh has it in its own resource exactly when that resource has no components; otherwise the mesh is in the last resource written for the object, which has no components and which the object's resource places by a component without transform |
| Resources.MeshCountAppend | test/export_3mf.py:431-471 | the meshes of two resource lists add up |
| Build.TopLevelNodes | test/export_3mf.py:213-284 | the top-level list holds exactly the objects of mesh type without a parent, and is no longer than the input |
| Build.TopLevelFilter | test/export_3mf.py:213-284 | the top-level list is the in-order filter of the input: it distributes over concatenation, and a single object is kept exactly when it is of mesh type without a parent; so each such object appears once per occurrence, in input order |
| Build.ForestResources | test/export_3mf.py:175-313 | the resources write_objects appends: those of each top-level object in input order, ids counted on from the start; their properties are ForestWellFormed and Exporter.Exporter.WriteObjects |
| Build.ItemOf | test/export_3mf.py:286-347 | the build item of one top-level object: the id of its resource, Scale(global) times its transformation (omitted for the identity) and the object's metadata |
| Build.BuildItems | test/export_3mf.py:175-347 | the build items write_objects appends, one per top-level object; their properties are BuildItemsFollowTopLevel, BuildItemsReferToOwnResources and TopLevelFilter |
| Build.ForestWellFormed | test/export_3mf.py:175-313 | all resources written by write_objects have consecutive ids; none mixes a mesh with components; every component refers to a later resource |
| Build.BuildItemsFollowTopLevel | test/export_3mf.py:175-347 | build item k belongs to top-level object k; it refers to a resource of the run (which one: BuildItemsReferToOwnResources) and carries Scale(global) times the object's transformation and the object's metadata; item ids strictly increase, so no resource is built twice |
| Build.BuildItemsReferToOwnResources | test/export_3mf.py:188-211 | the object id of build item k is the id write_object_resource returned for top-level object k: the resources written for that object sit in the run from that id on, its own resource first |
| Metadata.WriteMetadata | test/export_3mf.py:315-347 | write_metadata: no group when there is nothing to write, otherwise the Title element followed by the custom entries; its properties are TitleRule, CustomEntryRule, NothingInvented, GroupAbsentIff and MetadataRoundTrip |
| Metadata.MetadataGroup | test/export_3mf.py:473-510 | the group written for a resource or item, from the name and stored entries its metadata source records |
| Metadata.TitleRule | test/export_3mf.py:315-347 | a named entity's group starts with the Title element (the name, type xs:string, preserve "1"), and no other element is called Title |
| Metadata.CustomEntryRule | test/export_3mf.py:473-510 | every stored entry other than Title is written with its name, value and datatype (xs:string when unset), and with a preserve attribute exactly when its flag is set |
| Metadata.NothingInvented | test/export_3mf.py:315-347 | every written element comes from the name or from a stored entry, and a preserve attribute is always "1" |
| Metadata.GroupAbsentIff | test/export_3mf.py:175-211 | no metadata group is written exactly when the entity has no name and no stored entries |
| Metadata.EntryRoundTrip | test/export_3mf.py:473-510 | reading a written entry back gives the entry, except that an unset datatype reads back as xs:string |
| Metadata.MetadataRoundTrip | test/export_3mf.py:315-347 | reading the written group back gives the entity's entries in order, each normalised that way |
| Metadata.TitleAndEntry | test/export_3mf.py:315-347 | a named entity with one other stored entry gets exactly the Title element followed by that entry's element |
| Metadata.CustomEntries | test/export_3mf.py:473-510 | the custom entries are exactly the stored entries not called Title |
| ExportExamples.BuildItemMetadata | test/export_3mf.py:315-347 | the item of "Acoustic Kitty" carries the preserved xs:string Title "Acoustic Kitty" and its Description of type "mostly fur", without a preserve attribute |
| ExportExamples.MeshMetadataExample | test/export_3mf.py:473-510 | the metadata of the object's own resource (the first one written for it) comes from the mesh data: the preserved Title "Sergeant Reckless" and the Description of type "some_type", without a preserve attribute |
| ExportExamples.GiveIds | test/export_3mf.py:349-366 | write_object_resource called repeatedly on one exporter returns positive ids, all different |
| ExportExamples.NoMeshResource | test/export_3mf.py:368-383 | an object without mesh and children gives one resource, without a mesh or components |
| ExportExamples.MeshResource | test/export_3mf.py:385-406 | an object with a mesh and no children gives one resource holding the mesh written from its vertices and triangles, and no components |
| ExportExamples.ScaledChildComponent | test/export_3mf.py:408-429 | a child at twice the size gives one component, for an id other than the parent's, with transform "2 0 0 0 2 0 0 0 2 0 0 0" |
| ExportExamples.MeshAndChildComponents | test/export_3mf.py:431-471 | a mesh plus one child gives two components with ids different from each other and from the parent's; the parent's resource has no mesh; exactly one mesh is written, the parent's, in the last resource |
| ExportExamples.OneChildBlock | test/export_3mf.py:408-471 | a single eligible child gives its resources and one component for it |
| ExportExamples.NoObjects | test/export_3mf.py:175-186 | no objects give no resources and no build items |
| ExportExamples.SingleObject | test/export_3mf.py:188-211 | one top-level object at the identity with global scale 1 gives one item, with its resource's id and no transform |
| ExportExamples.NestedObjects | test/export_3mf.py:213-236 | with a parent and its child in the list, only the parent's tree is written and only one item is built |
| ExportExamples.OneObject | test/export_3mf.py:188-211 | a single top-level object gives its resources and its one item |
| ExportExamples.LightIgnored | test/export_3mf.py:238-255 | a light gives no resource and no item |
| ExportExamples.TwoObjects | test/export_3mf.py:257-284 | two top-level objects give two items, in order, with different ids |
| ExportExamples.ScaledTranslation | test/export_3mf.py:286-313 | with global scale 2 and translation (10, 20, 30), the item's matrix is diag(2, 2, 2) with translation (20, 40, 60), and the item carries its text |
| ExportExamples.EmptyMesh | test/export_3mf.py:527-541 | no vertices and no triangles give no elements |
| ExportExamples.VertexExample | test/export_3mf.py:543-565 | the test's three vertices at 4 places are written "0" "1.1" "2.2", "3.3" "4.4" "5.5", "6.6" "7.7" "8.8" |
| ExportExamples.TriangleExample | test/export_3mf.py:581-603 | the test's three triangles are written with their indices as they are |
| MeshWriter.WriteVertices | test/export_3mf.py:527-565 | the loop returns one element per vertex, in order, element k holding the coordinates of vertex k formatted at the coordinate precision; VertexReadsBack states what those texts read back as |
| MeshWriter.WriteTriangles | test/export_3mf.py:567-603 | the loop returns one element per triangle, in order, element k holding the three indices of triangle k; TriangleReadsBack and TriangleElementInjective state what those texts mean |
| MeshWriter.VertexReadsBack | test/export_3mf.py:543-565 | every coordinate attribute reads back within half a unit of the last place of the vertex's coordinate |
| MeshWriter.TriangleReadsBack | test/export_3mf.py:581-603 | every index attribute is plain digits that read back as exactly the index |
| MeshWriter.TriangleElementInjective | test/export_3mf.py:581-603 | different triangles give different elements |

## Left out

- Writing the archive: `create_archive`, the ZIP container and the failure when the file cannot be written (test/export_3mf.py:49-81). This is file I/O.
- The XML tree, its namespaces and attribute names. The model writes elements as datatypes carrying the attribute texts.
- The Blender API: the scene, its objects, the evaluated meshes and the mocks the tests build (test/export_3mf.py:16-27). A scene is a `Scene.Node` tree given as input.
- The matrix inverse used to make a child's transformation relative to its parent. The transformation of each node is given relative to its parent (in the world for top-level objects).
- Mesh modifiers (`use_mesh_modifiers`). The mesh data of a node is taken as given.
- NumberFormat.FormatNumber: a negative value that rounds to zero is written "0" by the model, without a sign. Python's fixed-point formatting and its round() both keep the sign there, so the exporter may write "-0"; the tests do not cover negative values.
- Floating point. Numbers are exact reals, and rounding is exact half-even on them. Binary rounding of decimal literals and the ties it produces are not modelled.
- Units.UnitScale: the combination of a non-zero scene scale length with a unit other than millimetres is not pinned down by the exporter's tests. The model lets the scale length override the unit, and states no more about that case.
- The `<basematerials>` group's own id, colours and the material index attributes on triangles. The model keeps the material names and their numbering in first-encounter order; the tests show only the empty case.
- Resources.ObjectResources: the tests do not show an object whose mesh sits next to children of other types; the model moves the mesh into its own resource only when at least one component is written, that is when the object has at least one child of mesh type.
- Scene.HasMesh: an object whose mesh data has no vertices gets no `<mesh>`. A mock mesh without vertices produces none (test/export_3mf.py:408-429).
- Resources.ObjectMetadata: the metadata source of a resource is the object's mesh data whenever it has mesh data, including mesh data without vertices, which gets no `<mesh>` (Scene.HasMesh); the object itself is the source only when it has no mesh data. The tests show only the case of a mesh with a name and an entry.
- Metadata entries called "Description" are written like any other custom entry. The tests' "Description" entries are not special-cased by the model.
- ExportExamples.GiveIds is stated for any number of calls rather than for the test's 1000 calls.
