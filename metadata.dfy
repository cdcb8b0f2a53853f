/**
 * The metadata rules of the exporter: an entity's display name becomes a
 * preserved "Title" entry of type xs:string, and every stored entry keeps its
 * name, datatype and value, with a preserve marker only when its flag is set.
 */
module Metadata {
  import opened Wrappers

  const TitleName: string := "Title"
  const StringType: string := "xs:string"
  /** The value of the preserve attribute when it is written. */
  const PreserveMarker: string := "1"

  /** A metadata entry stored on a scene entity; an unset datatype defaults to xs:string. */
  datatype MetadataEntry = MetadataEntry(name: string, preserve: bool, dataType: Option<string>, value: string)

  /** A <metadata> element: name, optional preserve attribute, type attribute and text. */
  datatype MetadataElement = MetadataElement(name: string, preserve: Option<string>, dataType: string, text: string)

  function TypeOf(e: MetadataEntry): string
  {
    if e.dataType.Some? then e.dataType.value else StringType
  }

  /** The entry derived from a display name: always preserved, always a string. */
  function TitleEntry(displayName: string): MetadataEntry
  {
    MetadataEntry(TitleName, true, Some(StringType), displayName)
  }

  /** The stored entries other than "Title" (the display name supplies that one). */
  function CustomEntries(stored: seq<MetadataEntry>): (custom: seq<MetadataEntry>)
    ensures |custom| <= |stored|
    ensures forall e :: e in custom <==> e in stored && e.name != TitleName
  {
    if stored == [] then []
    else
      var front := CustomEntries(stored[..|stored| - 1]);
      var last := stored[|stored| - 1];
      assert stored == stored[..|stored| - 1] + [last];
      if last.name == TitleName then front else front + [last]
  }

  /** All entries of an entity: the title from its name, if any, then its other stored entries. */
  function EntityEntries(displayName: Option<string>, stored: seq<MetadataEntry>): seq<MetadataEntry>
  {
    match displayName
    case None => stored
    case Some(title) => [TitleEntry(title)] + CustomEntries(stored)
  }

  /** One entry as a <metadata> element. */
  function WriteEntry(e: MetadataEntry): MetadataElement
  {
    MetadataElement(e.name, if e.preserve then Some(PreserveMarker) else None, TypeOf(e), e.value)
  }

  function WriteEntries(entries: seq<MetadataEntry>): (elements: seq<MetadataElement>)
    ensures |elements| == |entries|
    ensures forall k :: 0 <= k < |entries| ==> elements[k] == WriteEntry(entries[k])
  {
    seq(|entries|, k requires 0 <= k < |entries| => WriteEntry(entries[k]))
  }

  /** The metadata group of an entity, absent when it has neither a name nor stored entries. */
  function WriteMetadata(displayName: Option<string>, stored: seq<MetadataEntry>): Option<seq<MetadataElement>>
  {
    var entries := EntityEntries(displayName, stored);
    if entries == [] then None else Some(WriteEntries(entries))
  }

  /**
   * The entity whose metadata an <object> or <item> gets: its display name,
   * if any, and its stored entries.
   */
  datatype MetadataSource = MetadataSource(displayName: Option<string>, stored: seq<MetadataEntry>)

  /** A source with neither a name nor entries: no metadata group is written. */
  const NoMetadata: MetadataSource := MetadataSource(None, [])

  /** The metadata group written for a source. */
  function MetadataGroup(src: MetadataSource): Option<seq<MetadataElement>>
  {
    WriteMetadata(src.displayName, src.stored)
  }

  // ---------------------------------------------------------------------
  // Reading back

  /** A <metadata> element read as an entry: preserved exactly when the marker is present. */
  function ReadEntry(m: MetadataElement): MetadataEntry
  {
    MetadataEntry(m.name, m.preserve.Some?, Some(m.dataType), m.text)
  }

  function ReadGroup(group: Option<seq<MetadataElement>>): (entries: seq<MetadataEntry>)
    ensures group.Some? ==> |entries| == |group.value|
    ensures group.Some? ==> forall k :: 0 <= k < |entries| ==> entries[k] == ReadEntry(group.value[k])
    ensures group.None? ==> entries == []
  {
    match group
    case None => []
    case Some(elements) => seq(|elements|, k requires 0 <= k < |elements| => ReadEntry(elements[k]))
  }

  /** An entry with its datatype made explicit. */
  function Normalized(e: MetadataEntry): MetadataEntry
  {
    e.(dataType := Some(TypeOf(e)))
  }

  /** Writing then reading an entry loses nothing but the difference between an unset and an xs:string datatype. */
  lemma EntryRoundTrip(e: MetadataEntry)
    ensures ReadEntry(WriteEntry(e)) == Normalized(e)
    ensures e.dataType.Some? ==> ReadEntry(WriteEntry(e)) == e
  {
  }

  /** Reading the written group back yields the entity's entries, in order. */
  lemma MetadataRoundTrip(displayName: Option<string>, stored: seq<MetadataEntry>)
    ensures var entries := EntityEntries(displayName, stored);
            var back := ReadGroup(WriteMetadata(displayName, stored));
            |back| == |entries| &&
            forall k :: 0 <= k < |entries| ==> back[k] == Normalized(entries[k])
  {
    var entries := EntityEntries(displayName, stored);
    forall k | 0 <= k < |entries| ensures ReadGroup(WriteMetadata(displayName, stored))[k] == Normalized(entries[k]) {
      EntryRoundTrip(entries[k]);
    }
  }

  // ---------------------------------------------------------------------
  // The rules

  /** No metadata group is written exactly when the entity has no name and no stored entries. */
  lemma GroupAbsentIff(displayName: Option<string>, stored: seq<MetadataEntry>)
    ensures WriteMetadata(displayName, stored).None? <==> displayName.None? && stored == []
  {
  }

  /** A named entity's group starts with the Title element: the name as text, type xs:string, preserve "1". */
  lemma TitleRule(title: string, stored: seq<MetadataEntry>)
    ensures var group := WriteMetadata(Some(title), stored);
            group.Some? && |group.value| >= 1 &&
            group.value[0] == MetadataElement(TitleName, Some(PreserveMarker), StringType, title) &&
            forall k :: 1 <= k < |group.value| ==> group.value[k].name != TitleName
  {
    var group := WriteMetadata(Some(title), stored).value;
    var custom := CustomEntries(stored);
    forall k | 1 <= k < |group| ensures group[k].name != TitleName {
      assert group[k] == WriteEntry(custom[k - 1]);
      assert custom[k - 1] in custom;
    }
  }

  /** A named entity with one stored entry other than Title: the Title element, then that entry's element. */
  lemma TitleAndEntry(title: string, e: MetadataEntry)
    requires e.name != TitleName
    ensures WriteMetadata(Some(title), [e]) ==
              Some([MetadataElement(TitleName, Some(PreserveMarker), StringType, title), WriteEntry(e)])
  {
    assert [e][..0] == [];
    assert CustomEntries([e]) == [e];
    var entries := [TitleEntry(title), e];
    assert EntityEntries(Some(title), [e]) == entries;
    var written := WriteEntries(entries);
    assert written[0] == WriteEntry(TitleEntry(title));
    assert written[1] == WriteEntry(e);
    assert written == [WriteEntry(TitleEntry(title)), WriteEntry(e)];
  }

  /**
   * Every stored entry other than Title is written once as an element with
   * its own name, value and datatype (xs:string when unset), and with a
   * preserve attribute exactly when its flag is true.
   */
  lemma CustomEntryRule(displayName: Option<string>, stored: seq<MetadataEntry>, e: MetadataEntry)
    requires e in stored && e.name != TitleName
    ensures var group := WriteMetadata(displayName, stored);
            group.Some? &&
            MetadataElement(e.name, if e.preserve then Some(PreserveMarker) else None, TypeOf(e), e.value) in group.value
  {
    var entries := EntityEntries(displayName, stored);
    assert e in entries;
    var k :| 0 <= k < |entries| && entries[k] == e;
    assert WriteMetadata(displayName, stored).value[k] == WriteEntry(e);
  }

  /** Every written element comes from the name or a stored entry, and a preserve attribute, when present, is "1". */
  lemma NothingInvented(displayName: Option<string>, stored: seq<MetadataEntry>, m: MetadataElement)
    requires var group := WriteMetadata(displayName, stored); group.Some? && m in group.value
    ensures m.preserve.Some? ==> m.preserve.value == PreserveMarker
    ensures (displayName.Some? && m == WriteEntry(TitleEntry(displayName.value)))
            || exists e :: e in stored && m == WriteEntry(e)
  {
    var entries := EntityEntries(displayName, stored);
    var group := WriteMetadata(displayName, stored).value;
    var k :| 0 <= k < |group| && group[k] == m;
    var e := entries[k];
    if displayName.Some? && k > 0 {
      assert e == CustomEntries(stored)[k - 1];
      assert e in CustomEntries(stored);
    }
  }
}
