/** The screen's state and the logic it runs outside of layout: adding and
    deleting records (each followed by saving the whole list under one
    key), the tag menu, the label clean-up after classification, and the
    note shown under a record's name. */
module Snappy {
  import opened Text
  import opened Arrays
  import opened Items

  const NoteSeparator: string := " - "
  const LabelSeparator: string := ", "

  /** The note shown under a record: the second `" - "`-separated part of its
      name, or nothing when the name has fewer than two parts. */
  function ExtractNoteFromItem(item: string): string {
    var components := Components(item, NoteSeparator);
    if |components| > 1 then components[1] else ""
  }

  /** A name without `" - "` has no note. */
  lemma PlainNameHasNoNote(item: string)
    requires !Contains(item, NoteSeparator)
    ensures ExtractNoteFromItem(item) == ""
  {
    ComponentsOfPlain(item, NoteSeparator);
  }

  /** Where the note sits: right after the first `" - "`, running up to the
      next `" - "` or the end of the name, with no `" - "` starting inside it. */
  lemma NoteFollowsFirstSeparator(item: string, i: nat)
    requires FirstIndex(item, NoteSeparator) == Some(i)
    ensures var start, note := i + |NoteSeparator|, ExtractNoteFromItem(item);
            && start + |note| <= |item|
            && item[start..start + |note|] == note
            && (start + |note| == |item| || OccursAt(item, NoteSeparator, start + |note|))
            && forall k :: start <= k < start + |note| ==> !OccursAt(item, NoteSeparator, k)
  {
    NoteIsHeadAfterFirst(item, i);
    ComponentAt(item, NoteSeparator, i + |NoteSeparator|);
  }

  /** The note is the first part of what follows the first `" - "`. */
  lemma NoteIsHeadAfterFirst(item: string, i: nat)
    requires FirstIndex(item, NoteSeparator) == Some(i)
    ensures ExtractNoteFromItem(item) == Components(item[i + |NoteSeparator|..], NoteSeparator)[0]
  {
    ComponentsAfterFirst(item, NoteSeparator, i);
  }

  /** The classifier's label with its descriptive tail cut off: the text
      before the first `", "`, or the whole label when there is none. */
  function LabelHead(identifier: string): (head: string)
    ensures |head| <= |identifier| && identifier[..|head|] == head
    ensures forall k: nat :: k < |head| ==> !OccursAt(identifier, LabelSeparator, k)
    ensures |head| == |identifier| || OccursAt(identifier, LabelSeparator, |head|)
  {
    FirstComponent(identifier, LabelSeparator);
    Components(identifier, LabelSeparator)[0]
  }

  /** The name offered for a photo, from the best label. Title-casing is
      locale-dependent platform behaviour and comes in as `capitalized`. */
  function DetectedName(identifier: string, capitalized: string -> string): string {
    capitalized(LabelHead(identifier))
  }

  /** Whether the new record is named after the classifier or by the user. */
  datatype NameOption = Detected | Custom

  /** The screen's state. `persisted` stands for the one key the list is saved
      under; `dateString` is the platform's text form of a date. */
  class ContentView {
    var snappedItems: seq<Item>
    var persisted: seq<string>
    var detectedItem: string
    var nameOption: NameOption
    var customItemName: string
    var customNotes: string
    var selectedTag: string
    var selectedColor: ItemColor
    var showConfirmSheet: bool
    const dateString: Date -> string

    /** The saved list is the encoding of the in-memory list. */
    predicate Synced()
      reads this
    {
      persisted == EncodeAll(snappedItems, dateString)
    }

    /** The state at launch. The list starts empty; the key still holds
        whatever an earlier session saved, which is never read back. */
    constructor (stored: seq<string>, dateString: Date -> string)
      ensures snappedItems == [] && persisted == stored
      ensures detectedItem == "" && nameOption == Detected
      ensures customItemName == "" && customNotes == "" && selectedTag == ""
      ensures selectedColor == Def && !showConfirmSheet
      ensures this.dateString == dateString
    {
      snappedItems := [];
      persisted := stored;
      detectedItem := "";
      nameOption := Detected;
      customItemName := "";
      customNotes := "";
      selectedTag := "";
      selectedColor := Def;
      showConfirmSheet := false;
      this.dateString := dateString;
    }

    /** Appends a record built from the form (the notes are not part of it),
        saves the whole list, clears the form's text fields and toggles the
        confirmation sheet. */
    method AddItem(now: Date)
      modifies this
      ensures snappedItems == old(snappedItems) + [Item(
        if old(nameOption) == Detected then old(detectedItem) else old(customItemName),
        old(selectedTag), now, old(selectedColor))]
      ensures Synced()
      ensures old(Synced()) ==> persisted == old(persisted) + [EncodeRecord(snappedItems[|snappedItems| - 1], dateString)]
      ensures customItemName == "" && customNotes == "" && selectedTag == ""
      ensures showConfirmSheet == !old(showConfirmSheet)
      ensures detectedItem == old(detectedItem) && nameOption == old(nameOption)
      ensures selectedColor == old(selectedColor)
    {
      var newItem: string;
      match nameOption {
        case Detected => newItem := detectedItem;
        case Custom => newItem := customItemName;
      }
      var itemWithNotes := newItem;
      var item := Item(itemWithNotes, selectedTag, now, selectedColor);
      EncodeAllAppend(snappedItems, item, dateString);
      snappedItems := snappedItems + [item];
      persisted := EncodeAll(snappedItems, dateString);
      customItemName := "";
      customNotes := "";
      selectedTag := "";
      showConfirmSheet := !showConfirmSheet;
    }

    /** Removes the records at the given positions and saves the whole list;
        the others stay, unchanged and in order. */
    method DeleteItem(offsets: set<nat>)
      requires forall o :: o in offsets ==> o < |snappedItems|
      modifies this
      ensures snappedItems == RemoveAt(old(snappedItems), offsets)
      ensures |snappedItems| == |old(snappedItems)| - |offsets|
      ensures Synced()
      ensures detectedItem == old(detectedItem) && nameOption == old(nameOption)
      ensures customItemName == old(customItemName) && customNotes == old(customNotes)
      ensures selectedTag == old(selectedTag) && selectedColor == old(selectedColor)
      ensures showConfirmSheet == old(showConfirmSheet)
    {
      ghost var before := snappedItems;
      var after := RemoveAt(snappedItems, offsets);
      RemoveAtLength(before, offsets);
      snappedItems := after;
      persisted := EncodeAll(snappedItems, dateString);
    }

    /** Takes the classifier's observations, best first; when there is one,
        the offered name becomes its cleaned-up label, otherwise it stays. */
    method ApplyClassification(identifiers: seq<string>, capitalized: string -> string)
      modifies this`detectedItem
      ensures detectedItem == if |identifiers| > 0 then DetectedName(identifiers[0], capitalized) else old(detectedItem)
    {
      if |identifiers| > 0 {
        detectedItem := capitalized(Components(identifiers[0], LabelSeparator)[0]);
      }
    }

    /** A choice in the filter menu: a tag, or `""` for all items. */
    method SelectTag(tag: string)
      modifies this`selectedTag
      ensures selectedTag == tag
    {
      selectedTag := tag;
    }

    /** The filter menu's tags: each record's tag once, in first-seen order. */
    function MenuTags(): (tags: seq<string>)
      reads this
      ensures NoDuplicates(tags)
      ensures forall i :: 0 <= i < |snappedItems| ==> snappedItems[i].tag in tags
      ensures forall j :: 0 <= j < |tags| ==> tags[j] in Tags(snappedItems)
    {
      Dedup(Tags(snappedItems))
    }
  }

  /** The menu lists tags in the order their first records appear. */
  lemma MenuTagsInFirstSeenOrder(view: ContentView)
    ensures forall i, j :: 0 <= i < j < |view.MenuTags()| ==>
      FirstPosition(Tags(view.snappedItems), view.MenuTags()[i])
        < FirstPosition(Tags(view.snappedItems), view.MenuTags()[j])
  {
    DedupKeepsFirstSeenOrder(Tags(view.snappedItems));
  }

  /** Two records of one tag are added and deleting the first leaves the
      second (`FruitShown` below says what the list shows meanwhile). The
      first save replaces what an earlier session left under the key. */
  method FruitScenario(dateString: Date -> string, d0: Date, d1: Date)
  {
    var view := new ContentView(["Old###x###t###Red"], dateString);
    view.detectedItem := "Apple";
    view.selectedTag := "Fruit";
    view.selectedColor := Red;
    view.AddItem(d0);
    assert view.persisted == [EncodeRecord(Item("Apple", "Fruit", d0, Red), dateString)];
    assert view.selectedTag == "";

    view.nameOption := Custom;
    view.customItemName := "Banana";
    view.selectedTag := "Fruit";
    view.selectedColor := Yellow;
    view.AddItem(d1);
    var apple, banana := Item("Apple", "Fruit", d0, Red), Item("Banana", "Fruit", d1, Yellow);
    assert view.snappedItems == [apple, banana];

    assert [apple, banana][..1] == [apple] && [apple][..0] == [];
    assert RemoveAt([apple], {0}) == [];
    assert RemoveAt([apple, banana], {0}) == [banana];
    view.DeleteItem({0});
    assert view.snappedItems == [banana];
  }

  /** Both fruit records are listed under "Fruit" and under no filter; once
      the first is gone, "Fruit" lists the remaining one. */
  lemma FruitShown(apple: Item, banana: Item)
    requires apple.tag == "Fruit" && banana.tag == "Fruit"
    ensures VisibleIndices([apple, banana], "Fruit") == [0, 1]
    ensures VisibleIndices([apple, banana], "") == [0, 1]
    ensures VisibleIndices([banana], "Fruit") == [0]
  {
    assert [apple, banana][..1] == [apple];
    assert [apple][..0] == [] && [banana][..0] == [];
    assert VisibleIndices([apple], "Fruit") == [0];
    assert VisibleIndices([apple], "") == [0];
  }
}
