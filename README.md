# Snappy: the item store behind the screen

Snappy is a one-screen photo app. The user takes a photo and an on-device
classifier suggests a label. The user then confirms a record: a name (the
cleaned-up label or a custom name), a free-text tag, a colour and a
timestamp. Records are kept in an in-memory list, in insertion order. After
every add and every delete, the whole list is saved under one key. Each record
is saved as the string `name###tag###date###colour`. A menu filters the list
by tag, and its entries are the distinct tags in the order they were first
seen. A row also shows a "note": the text between the first and the second
`" - "` in the record's name (or up to its end), so the note of `"a - b - c"`
is `"b"`.

This project models that logic in Dafny and proves properties of it.

- `text.dfy` (module `Text`): splitting a string at a separator, as a
  literal search for Foundation's `components(separatedBy:)`. The string is
  cut at every leftmost, non-overlapping occurrence, character for
  character. Joining the parts again is the partner operation.
- `arrays.dfy` (module `Arrays`): the `removingDuplicates` extension, written
  as the loop it is and proved against a specification function `Dedup`.
  It also holds SwiftUI's `remove(atOffsets:)` on an array, as `RemoveAt`,
  with an index-level description of what stays.
- `items.dfy` (module `Items`): `ItemColor` and its raw strings, the record,
  the `###` encoding, and the tag filter.
- `content_view.dfy` (module `Snappy`): note extraction, the clean-up of the
  classifier's label, and the class `ContentView`. That class holds the
  screen's state fields. Its methods `AddItem`, `DeleteItem`,
  `ApplyClassification` and `SelectTag` change those fields in place.
  `persisted` stands for the one storage key. `FruitScenario` walks through
  adding two records and deleting one.

Platform behaviour is passed in as parameters:

- `dateString: Date -> string` is the text form of a date. It is fixed when
  the screen is constructed.
- `capitalized: string -> string` is title-casing.
- The classifier's observations are a `seq<string>` of labels, best first.
- The time of an add is a `Date` argument.

Behaviours the code has that are easy to miss:

- At launch the list is empty, but the key still holds whatever an earlier
  session saved. Nothing ever reads it back. So `persisted` equals the
  encoding of the list only after the first add or delete. The first save
  replaces the earlier data, as `FruitScenario` shows.
- The notes typed in the form are never stored: the saved name is the plain
  name. A name can still contain `" - "`, for example the custom name
  `"Apple - red"`. Such a name does show a note (`"red"`). So note
  extraction is not dead code, although no notes are ever added to names.
- The encoding does not escape anything. Moving a `###` from the name into
  the tag gives a different record with the same saved string
  (`EncodeRecordCollides`).

## Model

| member | source | states |
|---|---|---|
| `Items.RawValuesDistinct` | Snappy/ContentView.swift:7-13 | The six cases are listed once each, and their raw strings None, Red, Green, Blue, Yellow and Purple are pairwise different. |
| `Items.ItemColor.RawValue` | Snappy/ContentView.swift:7-13 | The raw string of each case, together with `AllCases` in declaration order. `RawValuesDistinct` and `RawValueInjective` characterise it. |
| `Items.RawValueInjective` | Snappy/ContentView.swift:7-13 | Two colours with the same raw string are the same colour. |
| `Text.FirstIndex` | Snappy/ContentView.swift:244 | A found index leaves room for the whole separator. `FirstIndexIsLeftmost` and `FirstIndexAt` characterise it as the leftmost occurrence. |
| `Text.Components` | Snappy/ContentView.swift:244 | The split at `", "` and at `" - "`. It always yields at least one part. `JoinComponents`, `ComponentsAvoidSeparator` and `ComponentsOfJoin` characterise it. |
| `Text.FirstIndexIsLeftmost` | Snappy/ContentView.swift:256 | The search that the splitting uses finds an occurrence of the separator with none before it. It finds nothing exactly when the string holds no occurrence. |
| `Text.JoinComponents` | Snappy/ContentView.swift:256 | Splitting loses no characters: joining the parts with the separator gives back the original string. |
| `Text.ComponentsAvoidSeparator` | Snappy/ContentView.swift:256 | No part produced by the split contains the separator. |
| `Text.ComponentsOfJoin` | Snappy/ContentView.swift:219 | If no field contains the separator's first character, splitting the joined fields returns exactly those fields. |
| `Snappy.ExtractNoteFromItem` | Snappy/ContentView.swift:255-262 | The second part of the name split at `" - "`, or `""` when there is no second part. `PlainNameHasNoNote` and `NoteFollowsFirstSeparator` characterise it. |
| `Snappy.PlainNameHasNoNote` | Snappy/ContentView.swift:255-262 | A name without `" - "` has the empty note. |
| `Snappy.NoteFollowsFirstSeparator` | Snappy/ContentView.swift:255-262 | The note is the text that starts right after the first `" - "`. It ends at the next `" - "` or at the end of the name, and no `" - "` starts inside it. |
| `Snappy.LabelHead` | Snappy/ContentView.swift:244 | The cleaned label is a prefix of the classifier's label. No `", "` starts inside it. It ends where the first `", "` starts, or at the end of the label. |
| `Snappy.DetectedName` | Snappy/ContentView.swift:244 | The capitalised `LabelHead` of a classifier label, with capitalisation passed in. `LabelHead` characterises the part before capitalisation. |
| `Snappy.ContentView.ApplyClassification` | Snappy/ContentView.swift:243-245 | If there is at least one observation, the offered name becomes the capitalised head of the best label. Otherwise the offered name stays as it was. |
| `Arrays.Dedup` | Snappy/ContentView.swift:340-350 | The result has no repeated element. Every input element is in the result, and every result element is in the input. |
| `Arrays.RemovingDuplicates` | Snappy/ContentView.swift:341-349 | The loop over a seen-set computes exactly `Dedup` of its input. |
| `Arrays.DedupKeepsFirstSeenOrder` | Snappy/ContentView.swift:342-349 | The first positions of the kept elements strictly increase. So each element is taken from its first position, and the result is a subsequence of the input in first-seen order. |
| `Arrays.DedupOfDistinct` | Snappy/ContentView.swift:342-349 | A list without repeats is returned unchanged. |
| `Arrays.DedupIdempotent` | Snappy/ContentView.swift:341-349 | Removing duplicates twice gives the same result as removing them once. |
| `Items.Tags` | Snappy/ContentView.swift:133 | One tag per record, in list order: the i-th entry is the i-th record's tag. |
| `Snappy.ContentView.MenuTags` | Snappy/ContentView.swift:133 | The menu's tags have no repeats. Every record's tag is in the menu, and every menu tag is some record's tag. |
| `Snappy.MenuTagsInFirstSeenOrder` | Snappy/ContentView.swift:133 | The menu lists the tags in the order in which their first records appear. |
| `Items.IsShown` | Snappy/ContentView.swift:73 | A row's visibility test: its tag equals the selected tag, or the selected tag is empty. `VisibleIndices`, `EmptyFilterShowsAll` and `TagFilterShows` characterise which rows it lets through. |
| `Items.VisibleIndices` | Snappy/ContentView.swift:70-73 | The list shows the row at index k if and only if k is a valid index and the record's tag equals the selected tag or the selected tag is empty. The shown indices are strictly increasing. |
| `Items.EmptyFilterShowsAll` | Snappy/ContentView.swift:73 | With no tag selected, every index is shown, in order. |
| `Items.TagFilterShows` | Snappy/ContentView.swift:73 | With a tag selected, index k is shown exactly when the record's tag is that tag. |
| `Snappy.FruitShown` | Snappy/ContentView.swift:70-73 | Two records tagged "Fruit" are both shown under "Fruit" and under no filter. Once the first is removed, "Fruit" shows the remaining one. |
| `Items.EncodeRecord` | Snappy/ContentView.swift:219 | One saved string: name, tag, date text and raw colour with `###` between them. `EncodeRecordSplits`, `TrailingHashBreaksSplit` and `EncodeRecordCollides` characterise it. |
| `Items.EncodeAll` | Snappy/ContentView.swift:219 | The saved list has one string per record, in list order. The i-th string is `name###tag###date###raw colour` of the i-th record. |
| `Items.EncodeAllAppend` | Snappy/ContentView.swift:218-219 | Saving a list that is one record longer adds one string at the end. |
| `Items.EncodeRecordSplits` | Snappy/ContentView.swift:219 | If the name, the tag and the date text contain no `#`, the saved string splits at `###` into exactly the four fields, in order. |
| `Items.TrailingHashBreaksSplit` | Snappy/ContentView.swift:219 | Fields free of `###` are not enough for the four-field split. A name `"x#"` with tag `"y"` is saved as `x####y…`, whose first part is `"x"`, so `EncodeRecordSplits` needs fields with no `#` at all. |
| `Items.EncodeRecordCollides` | Snappy/ContentView.swift:219 | Two different records can be saved as the same string, so the encoding is not injective. |
| `Arrays.RemoveAt` | Snappy/ContentView.swift:227 | The list without the elements at the offsets. `RemoveAtKeepsTheRest`, `RemoveAtLength` and `RemoveAtIgnoresFarOffsets` characterise it. |
| `Arrays.KeptIndices` | Snappy/ContentView.swift:227 | The kept positions are exactly the positions below the length that are not offsets, in strictly increasing order. |
| `Arrays.RemoveAtKeepsTheRest` | Snappy/ContentView.swift:227 | After removal, the m-th survivor is the input element at the m-th kept position, unchanged. |
| `Arrays.RemoveAtLength` | Snappy/ContentView.swift:227 | If every offset is a valid index, exactly as many elements go as there are offsets. |
| `Snappy.ContentView.Synced` | Snappy/ContentView.swift:219 | The saved list is the encoding of the in-memory list. `AddItem` and `DeleteItem` establish it. The constructor does not, because the key keeps an earlier session's data. |
| `Snappy.ContentView.constructor` | Snappy/ContentView.swift:40-53 | The launch state: an empty list, "detected" naming, empty text fields, colour None and the sheet hidden. The key keeps what an earlier session stored. |
| `Snappy.ContentView.AddItem` | Snappy/ContentView.swift:209-224 | Exactly one record is appended at the end, and the earlier records are unchanged. Its name is the detected name or the custom name, depending on the name option, and no notes are added. Its tag and colour come from the form. The saved list is the encoding of the new list. If the saved list was in sync before, it gains exactly one string. The custom name, the notes and the tag are cleared. The sheet is toggled. Nothing else changes. |
| `Snappy.ContentView.DeleteItem` | Snappy/ContentView.swift:226-229 | The list becomes `RemoveAt` of the old list. It loses exactly as many records as there are offsets. The saved list is the encoding of the new list. The form fields are unchanged. |
| `Snappy.ContentView.SelectTag` | Snappy/ContentView.swift:128-137 | A menu choice sets the selected tag: a tag, or `""` for all items. |
| `Snappy.FruitScenario` | Snappy/ContentView.swift:209-229 | Adding two records and deleting the first. After the first add, the key holds only that record's string, and the earlier session's data is gone. After the second add, the list is both records in order. After deleting offset 0, only the second remains. |

## Left out

- View layout, sheets, popovers, the toolbar's widgets, `PopoverView` and its date formatting, and the colour-to-`Color` mapping and its indicator view. They are presentation code only.
- `ImagePickerView` and its coordinator. They are the platform's photo picker bridge.
- Inside `detect`: loading the image and the model, running the request, and the `fatalError` paths. These are calls into the Vision and CoreML frameworks. Only the handling of the result list (lines 243-245) is modelled, by `ApplyClassification`, and the observations are passed in.
- Title-casing (`.capitalized`) and the text form of a `Date` (its `description`, which the interpolation at line 219 uses). Both are Foundation behaviour outside the model and are passed in as functions. `Date` keeps its value as a `real` that is never inspected. Floating-point behaviour is not modelled.
- The storage write itself. It is an assignment to `persisted`. Whether the write happens or fails is not modelled.
- `DeleteItem`: the offsets are a `set<nat>` with every offset below the list's length. This is the form in which the swipe-to-delete gesture supplies them, and `remove(atOffsets:)` traps on invalid offsets.
- Reading the saved list back. The code never does it, so there is no decoder and no round-trip property. The encoding's properties are about its shape.
- Unicode equivalence. Strings are sequences of Unicode scalars compared literally, scalar by scalar: in the tag filter's `==`, in the set of `removingDuplicates`, and in the separator search of `components(separatedBy:)`. Swift compares strings up to canonical equivalence, so a tag `"Caf\u{E9}"` and a tag `"Cafe\u{301}"` are one menu entry and one filter in the app but two in the model. The model agrees with the app when all strings are in one normalisation form (NFC).
- `Snappy/SnappyApp.swift` is not part of this model. It only starts the screen.
