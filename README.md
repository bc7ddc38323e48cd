# NotePad note collection, modelled in Dafny

This project models the in-memory core of the NotePad browser application (`script.js`, class
`NoteApp`). The core covers:

- the collection of note objects;
- the note open in the editor;
- the sidebar's category filter and search term;
- the one-slot auto-save timer;
- the query rule that lists notes: filter by category, filter by a lower-cased search term, then a
  stable sort by `updatedAt`, newest first;
- the small display helpers: content preview, relative-date label, word count and note-count label.

Modules:

- `Text` (text.dfy): the JavaScript string built-ins the core relies on. These are
  `toLowerCase` (ASCII letters only), the white-space class shared by `trim` and `\s`,
  `String.prototype.includes`, and the decimal rendering of integers in template literals.
- `Notes` (notes.dfy): notes as values (`NoteRecord`), `Array.prototype.filter` as `Keep`, and the
  stable newest-first order as `SortByUpdated` (an insertion sort). `Query` is the listing rule,
  proved sound, complete, sorted, a permutation of the selected notes, and stable. The module also
  proves that every sorted, stable reordering equals `SortByUpdated`, so the model does not depend on
  the sorting algorithm the browser uses.
- `Display` (display.dfy): `getNotePreview`, the day buckets of `formatDate`, the word count of
  `updateWordCount` and the label of `updateNoteCount`.
- `App` (app.dfy): `class Note` is a note object whose fields `saveNote` overwrites in place.
  `class NoteApp` holds `notes: seq<Note>`, `currentNote: Note?` and the filter state.
  - The editor's note and the collection share objects, so a save through `currentNote` shows in
    the collection.
  - With no filter on, the sort reorders `this.notes` itself (script.js:181, 197), and
    `GetFilteredNotes` says so.
  - Every operation is specified by the values of the objects (`Contents()`), stated with the
    functions of `Notes`.

Inputs the program takes from the browser are parameters:

- the clock (`now`, `createdAt`, `updatedAt`) and the generated id;
- the user's answer to `confirm()`;
- the editor's field values at the moment of a save;
- the collection read from storage at start-up.

`stored` is the collection as last written to storage. Timestamps are milliseconds since the epoch,
which is what the ISO strings of the source encode.

Behaviour of the code that the model keeps:

- `deleteNote` does not cancel a pending auto-save timer (script.js:126-143), so
  `DeleteNote` leaves `autoSavePending` as it was.
- `createdAt` and `updatedAt` of a new note come from two separate clock reads (script.js:66-67),
  so they are two parameters.

## Model

| member | source | states |
|---|---|---|
| Text.LowerString | script.js:36-37 | lowering keeps the length and lowers each character by the ASCII rule, leaving every other character alone |
| Text.LowerStringIdempotent | script.js:36-37 | a lowered search term has no upper-case ASCII letter, and lowering it again changes nothing |
| Text.IncludesIff | script.js:191-192 | the left-to-right `includes` scan is true exactly when the term occurs at some index of the text |
| Text.NatToStringRoundTrip | script.js:228-231 | the decimal rendering of a count reads back as that count, with no leading zero except for 0 |
| Notes.Keep | script.js:185 | filtering never lengthens the collection |
| Notes.KeepMembers | script.js:185 | the filter keeps each element that passes, with its multiplicity, and nothing else |
| Notes.KeepAppend | script.js:185 | filtering a concatenation filters each part, so survivors keep their relative order |
| Notes.KeepAll | script.js:130 | a filter every element passes returns the sequence unchanged |
| Notes.KeepNone | script.js:185 | a filter no element passes returns nothing |
| Notes.KeepKeep | script.js:184-194 | filtering by one predicate and then another equals one filter by their conjunction |
| Notes.FilterNotesIsOneFilter | script.js:180-194 | the category filter followed by the search filter is a single order-preserving filter by `Selected` |
| Notes.InsertByUpdatedAt | script.js:197 | inserting a note splices it in before the first strictly older note |
| Notes.InsertByUpdatedPerm | script.js:197 | insertion adds exactly the one note to the multiset |
| Notes.SortByUpdatedPerm | script.js:197 | the sort is a permutation of its input |
| Notes.InsertByUpdatedSorted | script.js:197 | inserting into a newest-first sequence keeps it newest-first |
| Notes.InsertByUpdatedStable | script.js:197 | inserting into a newest-first sequence puts the new note after every note with the same timestamp |
| Notes.SortByUpdatedSpec | script.js:197 | the sort orders newest first, and notes with equal `updatedAt` keep their input order |
| Notes.HeadIsNewest | script.js:197 | the first note of a newest-first sequence is at least as recent as any note in it |
| Notes.StableSortIsUnique | script.js:197 | any newest-first reordering that keeps equal timestamps in input order equals `SortByUpdated` |
| Notes.QuerySpec | script.js:180-197 | the listing is sorted and stable, and holds each selected note as often as the collection does and nothing else |
| Notes.QueryCategory | script.js:184-186 | with a category other than "all", every listed note has that category and comes from the collection |
| Notes.QuerySearch | script.js:189-194 | with category "all" and a non-empty term, a note of the collection is listed iff its lower-cased title or content contains the term |
| Notes.QueryUnfiltered | script.js:181-197 | with "all" and an empty term, the listing is the whole collection, reordered newest first |
| Notes.KeepSorted | script.js:185 | filtering a newest-first sequence leaves it newest-first |
| Notes.SortSortedIsIdentity | script.js:197 | sorting a sequence that is already newest-first changes nothing |
| Notes.WithUpdatedKeep | script.js:185 | filtering commutes with picking out the notes of one timestamp |
| Notes.QueryAfterResort | script.js:180-197 | re-sorting the collection newest first, as each render with no filter on does, changes no listing for any category and term |
| Notes.QueryTwoCategories | script.js:180-197 | an older work note and a newer personal note: "work" lists only the work note; "all" lists the newer one first |
| Notes.RemoveIdSpec | script.js:130 | deleting by id drops every note with that id and keeps every other note with its multiplicity; with no such note nothing changes |
| Notes.RemoveIdRemovesOne | script.js:130 | with unique ids, deleting the id of a note in the collection shortens it by exactly one |
| Notes.NewNote | script.js:61-68 | a new note has the given id, empty title and content, and category "personal" |
| Notes.PrependKeepsUnique | script.js:60-71 | prepending a note with a new id keeps the ids unique |
| Notes.DeleteUndoesCreate | script.js:126-131 | deleting a note just created with a new id gives back the earlier collection |
| Display.NotePreview | script.js:200-203 | empty content gives "No content"; content of at most 100 characters is returned unchanged; longer content gives its first 100 characters then "..." (103 in all) |
| Display.PreviewIdempotent | script.js:200-203 | a preview is at most 103 characters, and previewing a preview changes nothing |
| Display.DayDifference | script.js:208-209 | the day difference is the ceiling of the absolute gap in days |
| Display.SameInstantLabel | script.js:205-216 | as written, a note dated the same millisecond as the clock is labelled "-1 days ago" |
| Display.FormatDateSpec | script.js:205-219 | "Today" for a gap of at most one day (the as-written labels for every gap of at least one day); "Yesterday" for 2; for 3 to 7, "N days ago" where N = diffDays - 1 is a single digit that reads back; the calendar date beyond 7 |
| Display.WordCount | script.js:222-225 | the count is 0 exactly when the content is blank (empty or only white space) |
| Display.TrimSpec | script.js:224 | the result is the text without its leading and trailing white space: nothing exactly for blank text, otherwise text that starts and ends with a word character and has the same number of words |
| Display.TrimSlice | script.js:224 | trimming keeps one slice of the text, and everything it drops before and after that slice is white space |
| Display.TrimStartSlice | script.js:224 | dropping leading white space leaves a suffix of the text, and the dropped prefix is all white space |
| Display.TrimEndSlice | script.js:224 | dropping trailing white space leaves a prefix of the text, and the dropped suffix is all white space |
| Display.SplitCountsWords | script.js:224 | splitting non-empty trimmed text (a word character at both ends) at white-space runs gives one piece per word |
| Display.WordCountIsWordStarts | script.js:224 | the count is the number of maximal runs of non-white-space characters |
| Display.NoteCountLabelSpec | script.js:228-231 | the label is the count in decimal, with no leading zero except for 0, followed by " note" or " notes", plural exactly when the count is not 1 |
| App.KeepNotes | script.js:130 | filtering the objects returns some of the same objects whose values are the filtered values |
| App.InsertionPoint | script.js:197 | returns the first position of a strictly older note, with every earlier one at least as recent |
| App.FilterNoteObjects | script.js:180-194 | filtering the objects returns some of the collection's own objects, whose values are the filtered values |
| App.InsertNoteAt | script.js:197 | inserting an object splices it in before the first strictly older object |
| App.InsertNoteRecords | script.js:197 | inserting an object inserts its values into the values |
| App.InsertNotePerm | script.js:197 | insertion adds exactly the one object |
| App.SortNotesPerm | script.js:197 | the object sort reorders the objects, losing, adding and duplicating none |
| App.SortNotesRecords | script.js:197 | the values of the sorted objects are the stable newest-first order of the values |
| App.SortNotesSorted | script.js:197 | the sorted objects are newest first |
| App.InsertNoteStable | script.js:197 | inserting into objects sorted newest first puts the object behind every object with its timestamp |
| App.SortNotesStable | script.js:197 | for every timestamp, the objects carrying it come out in their input order, even distinct objects holding identical values |
| App.FilteredListing | script.js:180-197 | the listed objects' values are the query listing of the collection's values; the listed objects come from the collection, and with no filter on they are all of its objects |
| App.SortNewestFirst | script.js:197 | the result is the object sort `SortNotes` of the input: the same objects, in the stable newest-first order of the objects themselves, with values in the stable newest-first order of the values |
| App.NoteApp.constructor | script.js:3-7 | the collection holds the loaded notes, no note is open, the category is "all" and the search term is empty |
| App.NoteApp.CreateNewNote | script.js:60-72 | a new object with the blank personal note goes in front of the unchanged collection, becomes the open note, and the collection is stored |
| App.NoteApp.SaveNote | script.js:100-108 | with no note open nothing changes; otherwise the open object takes the editor's values and the time, every other position keeps its values, the length is unchanged and the collection is stored; when the open note is in the collection, some position of the collection holds the saved values |
| App.NoteApp.AutoSave | script.js:116-124 | with a note open one timer is pending afterwards, whatever was pending before; with none open nothing changes |
| App.NoteApp.AutoSaveFires | script.js:121-123 | the pending timer runs `saveNote` once with the editor's values at that moment, and no timer is left pending |
| App.NoteApp.DeleteNote | script.js:126-132 | with no note open or the dialog refused nothing changes; otherwise the collection is the in-order filter of the old objects by the open note's id, so every note with that id is removed and the other objects keep their order; no note is open and the collection is stored; the timer is not cancelled |
| App.NoteApp.SetSearchTerm | script.js:36-37 | the stored search term is the lower-cased input |
| App.NoteApp.SetCategory | script.js:42-46 | the category filter becomes the clicked category |
| App.NoteApp.GetFilteredNotes | script.js:180-198 | the result is the collection's filtered objects in the stable object order, and their values are the query listing of the collection; with no filter on, the collection itself is left in that order and the open note stays in it, otherwise it is untouched |
| App.NoteApp.SelectFromListAsWritten | script.js:168-169 | as written, a sidebar click opens a new object equal to the shown note but outside the collection, so the open note is no longer one of the collection's |
| App.NoteApp.SelectById | script.js:78-79 | opening by id succeeds iff some note has that id, and then opens the collection's first such object |
| App.NoteApp.ClickThenSaveAsWritten | script.js:100-106 | after a sidebar click as written, a save leaves every note of the collection unchanged and stores the old values |
| App.NoteApp.ClickThenSave | script.js:100-106 | after a click resolved by id, a save lands on the first note with that id, and notes held by other objects keep their values; with no note of that id the collection, storage and the open note are unchanged |

## Left out

- Rendering, event binding, the welcome screen, notifications, `clearEditor` and the keyboard
  shortcuts (script.js:15-34, 38-45, 47-58, 145-178, 237-311) are presentation. The handlers'
  assignments at script.js:37 and 46 are modelled as `SetSearchTerm` and `SetCategory`. `loadNote`'s field writes to the
  editor are also left out; only its assignment of `currentNote` is modelled.
- `localStorage` and JSON serialisation (script.js:4, 233-235): `stored` records what would be
  written. The constructor takes the already parsed collection, so a parse that throws is not
  modelled.
- The sample-data seeding and page reload (script.js:321-357) are start-up I/O.
- App.NoteApp.constructor, App.NoteApp.CreateNewNote, App.NoteApp.SaveNote, App.NoteApp.DeleteNote,
  App.NoteApp.SetSearchTerm, App.NoteApp.SetCategory, App.NoteApp.AutoSaveFires,
  App.NoteApp.ClickThenSaveAsWritten and App.NoteApp.ClickThenSave: each source path ends with
  `renderNotes()` (script.js:11, 73, 109, 133, 38, 47; the last three through `saveNote`'s call at
  line 109), which calls `getFilteredNotes`. With category "all" and an
  empty term, that call sorts `this.notes` in place (script.js:181, 197). These methods' contracts
  describe the state before that re-sort. The program's order of `notes` is obtained by following
  each of them with `GetFilteredNotes`, and so is the order of `stored` after the next save to
  storage. `Notes.QueryAfterResort` shows that the omission changes only that order, never a
  listing.
- Timers: `setTimeout`/`clearTimeout` become the flag `autoSavePending`. `AutoSaveFires` is the
  moment the timer runs, and the one-second delay itself is not modelled.
- `confirm()` is the parameter `confirmed`. `Date.now()` and `new Date()` are parameters, so
  nothing here assumes that generated ids are unique.
- `new Date(...)` parsing of ISO strings, `toISOString`, floating-point division and
  `toLocaleDateString` (script.js:206-209, 218): timestamps are whole milliseconds, and the
  calendar date is a parameter of `FormatDate`.
- Lower-casing covers ASCII letters only. Other characters are compared as they are, so full
  Unicode case mapping is not modelled.
- Lengths are counted in characters, not UTF-16 code units.
- Text.Includes: the model scans characters, not UTF-16 code units.
- App.NoteApp.GetFilteredNotes: the browser's sort algorithm is not modelled. The result is
  modelled by one stable newest-first sort, an insertion sort. `Notes.StableSortIsUnique` shows
  that every stable newest-first sort gives the same values, and `App.SortNotesStable` shows that
  the model's order of the objects is stable too.
- App.NoteApp.SelectFromListAsWritten: `shown` is the object that the inline handler builds once
  the browser has decoded the HTML attribute. Only `"` is escaped (script.js:169), so a character
  reference such as `&amp;` in a title or content opens as `&`, and the shown note can differ from
  the collection's note. A note whose text holds `&quot;` makes the handler fail to parse; such a
  click opens nothing, and that case is not modelled.

## Findings

| source | as written | input that shows it | evidently intended | confidence | as-written member | corrected member |
|---|---|---|---|---|---|---|
| script.js:205-216 | a day difference of 0 fails the `=== 1` and `=== 2` tests and falls into the `<= 7` branch, which prints `diffDays - 1` | a note whose `updatedAt` equals the clock reading at render time, as right after `createNewNote` or `saveNote` re-renders the list in the same millisecond: the label is "-1 days ago" | a gap under one day, including none, is "Today" | high (not executed) | Display.SameInstantLabel | Display.FormatDateSpec |
| script.js:168-169, 78-79, 103-106 | a sidebar click passes a note rebuilt from its JSON text (after HTML attribute decoding) to `loadNote`, so `currentNote` is a copy outside the collection | open any note from the list, edit it and save: the copy changes, while the collection and storage keep the old values | the editor opens the collection's own note (by id), so saves reach the collection and storage | high (not executed) | App.NoteApp.ClickThenSaveAsWritten | App.NoteApp.ClickThenSave |
