/** The stored records: the colour tag, the record itself, the `###` string
    each record is saved as, and which records the tag filter lets through. */
module Items {
  import opened Text
  import opened Arrays

  /** The colour a record is tagged with; `Def` is the "None" sentinel. */
  datatype ItemColor = Def | Red | Green | Blue | Yellow | Purple {

    /** The enum's raw string, the form in which a colour is saved. */
    function RawValue(): string {
      match this
      case Def => "None"
      case Red => "Red"
      case Green => "Green"
      case Blue => "Blue"
      case Yellow => "Yellow"
      case Purple => "Purple"
    }
  }

  /** The cases in declaration order, as the colour picker lists them. */
  const AllCases: seq<ItemColor> := [Def, Red, Green, Blue, Yellow, Purple]

  /** Every colour is listed once, and no two colours share a raw string. */
  lemma RawValuesDistinct()
    ensures forall c: ItemColor :: c in AllCases
    ensures NoDuplicates(AllCases)
    ensures forall i, j :: 0 <= i < j < |AllCases| ==>
      AllCases[i].RawValue() != AllCases[j].RawValue()
  {
    forall c: ItemColor ensures c in AllCases {
      assert AllCases[Ordinal(c)] == c;
    }
  }

  /** The position of a colour among the cases. */
  function Ordinal(c: ItemColor): (i: nat)
    ensures i < |AllCases| && AllCases[i] == c
  {
    match c
    case Def => 0
    case Red => 1
    case Green => 2
    case Blue => 3
    case Yellow => 4
    case Purple => 5
  }

  /** `RawValue` is injective. */
  lemma RawValueInjective(a: ItemColor, b: ItemColor)
    ensures a.RawValue() == b.RawValue() ==> a == b
  {
    RawValuesDistinct();
    var i, j := Ordinal(a), Ordinal(b);
    assert i < j || j < i || i == j;
  }

  /** A point in time, seconds since the platform's reference date. It is
      never inspected: records only carry it and print it. */
  datatype Date = Date(secondsSinceReference: real)

  /** One stored record: the `(name, tag, date, color)` tuple. */
  datatype Item = Item(name: string, tag: string, date: Date, color: ItemColor)

  const Delimiter: string := "###"

  /** How a record is saved: its four fields with `###` between them. The
      date's text form is platform-defined and comes in as `dateString`. */
  function EncodeRecord(item: Item, dateString: Date -> string): string {
    item.name + Delimiter + item.tag + Delimiter + dateString(item.date) + Delimiter + item.color.RawValue()
  }

  /** The saved list: one string per record, in list order. */
  function EncodeAll(items: seq<Item>, dateString: Date -> string): (saved: seq<string>)
    ensures |saved| == |items|
    ensures forall i :: 0 <= i < |items| ==> saved[i] == EncodeRecord(items[i], dateString)
  {
    if items == [] then []
    else [EncodeRecord(items[0], dateString)] + EncodeAll(items[1..], dateString)
  }

  /** Saving a list one record longer saves one more string at the end. */
  lemma EncodeAllAppend(items: seq<Item>, item: Item, dateString: Date -> string)
    ensures EncodeAll(items + [item], dateString) == EncodeAll(items, dateString) + [EncodeRecord(item, dateString)]
  {
    var a, b := EncodeAll(items + [item], dateString), EncodeAll(items, dateString) + [EncodeRecord(item, dateString)];
    assert |a| == |b|;
    forall i | 0 <= i < |a| ensures a[i] == b[i] {
      assert (items + [item])[i] == if i < |items| then items[i] else item;
    }
  }

  /** The four fields of a record as they are saved. */
  function Fields(item: Item, dateString: Date -> string): seq<string> {
    [item.name, item.tag, dateString(item.date), item.color.RawValue()]
  }

  /** Shape of the encoding: a record whose name, tag and date text hold no
      `#` splits at `###` into exactly its four fields, in order. */
  lemma EncodeRecordSplits(item: Item, dateString: Date -> string)
    requires Avoids(item.name, '#') && Avoids(item.tag, '#') && Avoids(dateString(item.date), '#')
    ensures Components(EncodeRecord(item, dateString), Delimiter) == Fields(item, dateString)
  {
    var f := Fields(item, dateString);
    var raw := item.color.RawValue();
    assert Join(f, Delimiter) == EncodeRecord(item, dateString) by {
      assert Join(f[1..][1..][1..], Delimiter) == raw;
      assert Join(f[1..][1..], Delimiter) == dateString(item.date) + Delimiter + raw;
      assert Join(f[1..], Delimiter) == item.tag + Delimiter + dateString(item.date) + Delimiter + raw;
    }
    assert Avoids(item.color.RawValue(), '#') by {
      match item.color
      case Def => case Red => case Green => case Blue => case Yellow => case Purple =>
    }
    ComponentsOfJoin(f, Delimiter);
  }

  /** Fields free of `###` are not enough for the four-field split: a name
      ending in `#` lends that `#` to the delimiter after it, so the name
      `"x#"` comes back as `"x"` and the tag `"y"` as `"#y"`. */
  lemma TrailingHashBreaksSplit(date: Date, dateString: Date -> string)
    ensures !Contains("x#", Delimiter) && !Contains("y", Delimiter)
    ensures Components(EncodeRecord(Item("x#", "y", date, Red), dateString), Delimiter)[0] == "x"
  {
    var e := EncodeRecord(Item("x#", "y", date, Red), dateString);
    assert e[..6] == "x####y";
    assert OccursAt(e, Delimiter, 1) by { assert e[1..4] == e[..6][1..4]; }
    assert !OccursAt(e, Delimiter, 0) by { assert e[0] == 'x'; }
    FirstIndexAt(e, Delimiter, 1);
    ComponentsAfterFirst(e, Delimiter, 1);
    assert e[..1] == "x";
  }

  /** Without escaping the encoding is not injective: a `###` moved from the
      name into the tag gives two different records the same saved string. */
  lemma EncodeRecordCollides(date: Date, dateString: Date -> string)
    ensures Item("a###b", "c", date, Red) != Item("a", "b###c", date, Red)
    ensures EncodeRecord(Item("a###b", "c", date, Red), dateString)
         == EncodeRecord(Item("a", "b###c", date, Red), dateString)
  {
    assert "a###b" != "a";
    assert "a###b" + Delimiter + "c" == "a" + Delimiter + "b###c";
  }

  /** The list row for a record is shown when its tag is the selected tag, or
      no tag is selected. */
  predicate IsShown(item: Item, selectedTag: string) {
    item.tag == selectedTag || selectedTag == ""
  }

  /** The positions of the rows the list shows, in list order. */
  function VisibleIndices(items: seq<Item>, selectedTag: string): (r: seq<nat>)
    ensures StrictlyIncreasing(r)
    ensures forall i :: 0 <= i < |r| ==> r[i] < |items|
    ensures forall k: nat :: k in r <==> k < |items| && IsShown(items[k], selectedTag)
  {
    if items == [] then []
    else
      var n := |items| - 1;
      var r := VisibleIndices(items[..n], selectedTag);
      if IsShown(items[n], selectedTag) then r + [n] else r
  }

  /** With no tag selected every record is shown, in list order. */
  lemma {:induction false} EmptyFilterShowsAll(items: seq<Item>)
    ensures VisibleIndices(items, "") == seq(|items|, i => i)
  {
    if items != [] {
      var n := |items| - 1;
      EmptyFilterShowsAll(items[..n]);
      assert seq(|items|, i => i) == seq(n, i => i) + [n];
    }
  }

  /** The rows shown for a selected tag are those whose tag is that tag. */
  lemma TagFilterShows(items: seq<Item>, tag: string, k: nat)
    requires tag != "" && k < |items|
    ensures k in VisibleIndices(items, tag) <==> items[k].tag == tag
  {
  }

  /** The tag of every record, in list order. */
  function Tags(items: seq<Item>): (tags: seq<string>)
    ensures |tags| == |items|
    ensures forall i :: 0 <= i < |items| ==> tags[i] == items[i].tag
  {
    if items == [] then [] else [items[0].tag] + Tags(items[1..])
  }
}
