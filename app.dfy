/**
  The `NoteApp` object: the collection of shared note objects, the note open in the
  editor, the sidebar's category filter and search term, the auto-save slot, and the
  copy of the collection last written to browser storage.
 */
module App {
  import opened Text
  import opened Notes

  /** A note object. The collection and the editor hold the same object, so a save through one shows in the other. */
  class Note {
    var id: string
    var title: string
    var content: string
    var category: string
    var createdAt: int
    var updatedAt: int

    constructor (r: NoteRecord)
      ensures Record() == r
    {
      id, title, content, category := r.id, r.title, r.content, r.category;
      createdAt, updatedAt := r.createdAt, r.updatedAt;
    }

    /** The note's current field values. */
    function Record(): NoteRecord
      reads this
    {
      NoteRecord(id, title, content, category, createdAt, updatedAt)
    }
  }

  /** The field values of a sequence of note objects, position by position. */
  function Records(ns: seq<Note>): (r: seq<NoteRecord>)
    reads ns
    ensures |r| == |ns|
    ensures forall i :: 0 <= i < |ns| ==> r[i] == ns[i].Record()
  {
    seq(|ns|, i requires 0 <= i < |ns| reads ns => ns[i].Record())
  }

  /** `ns.filter(note => p(note))` on the objects themselves: the same objects, fewer of them. */
  function KeepNotes(ns: seq<Note>, p: NoteRecord -> bool): (r: seq<Note>)
    reads ns
    ensures multiset(r) <= multiset(ns)
    ensures forall o :: o in r ==> o in ns
    ensures Records(r) == Keep(Records(ns), p)
  {
    if ns == [] then []
    else
      var head := if p(ns[0].Record()) then [ns[0]] else [];
      var rest := KeepNotes(ns[1..], p);
      assert ns == [ns[0]] + ns[1..];
      RecordsConcat(head, rest);
      RecordsSlice(ns, 1);
      head + rest
  }

  /** Lines 181-194 of `getFilteredNotes` on the objects: the category filter, then the search filter. */
  function FilterNoteObjects(ns: seq<Note>, category: string, term: string): (r: seq<Note>)
    reads set o | o in ns
    ensures multiset(r) <= multiset(ns)
    ensures forall o :: o in r ==> o in ns
    ensures Records(r) == FilterNotes(Records(ns), category, term)
  {
    var byCategory := if category != AllCategories then KeepNotes(ns, InCategory(category)) else ns;
    if term != "" then KeepNotes(byCategory, Matching(term)) else byCategory
  }

  /** The values of a concatenation are the concatenated values. */
  lemma RecordsConcat(a: seq<Note>, b: seq<Note>)
    ensures Records(a + b) == Records(a) + Records(b)
  {
    var lhs, rhs := Records(a + b), Records(a) + Records(b);
    forall k | 0 <= k < |lhs|
      ensures lhs[k] == rhs[k]
    {
      if k < |a| {
        assert (a + b)[k] == a[k];
      } else {
        assert (a + b)[k] == b[k - |a|];
      }
    }
  }

  /** The values of a slice are the slice of the values. */
  lemma RecordsSlice(r: seq<Note>, j: nat)
    requires j <= |r|
    ensures Records(r[..j]) == Records(r)[..j] && Records(r[j..]) == Records(r)[j..]
  {
    assert r[..j] + r[j..] == r;
    RecordsConcat(r[..j], r[j..]);
  }

  /** The values of a longer prefix are the shorter prefix's values and one more. */
  lemma RecordsPrefix(ns: seq<Note>, i: nat)
    requires i < |ns|
    ensures Records(ns[..i + 1]) == Records(ns[..i]) + [ns[i].Record()]
  {
    var lhs, rhs := Records(ns[..i + 1]), Records(ns[..i]) + [ns[i].Record()];
    assert |lhs| == |rhs|;
    forall k | 0 <= k < |lhs|
      ensures lhs[k] == rhs[k]
    {
      if k < i {
        assert lhs[k] == ns[k].Record();
      }
    }
  }

  /** Sorting one more object's values inserts that object's values into the sorted earlier ones. */
  lemma SortPrefixStep(ns: seq<Note>, i: nat)
    requires i < |ns|
    ensures SortByUpdated(Records(ns[..i + 1])) == InsertByUpdated(ns[i].Record(), SortByUpdated(Records(ns[..i])))
  {
    RecordsPrefix(ns, i);
    var s := Records(ns[..i + 1]);
    assert s[..|s| - 1] == Records(ns[..i]) && s[|s| - 1] == ns[i].Record();
  }

  /** Put the object `x` after every leading object that is at least as recent. */
  function InsertNote(x: Note, r: seq<Note>): (q: seq<Note>)
    reads x, r
    ensures |q| == |r| + 1
    ensures forall o :: o in q ==> o == x || o in r
  {
    if r == [] || r[0].updatedAt < x.updatedAt then [x] + r
    else [r[0]] + InsertNote(x, r[1..])
  }

  /**
    The stable newest-first order of the objects themselves: objects with equal `updatedAt`,
    including distinct objects holding identical values, keep their input order.
   */
  function SortNotes(ns: seq<Note>): (r: seq<Note>)
    reads set o | o in ns
    ensures |r| == |ns|
    ensures forall o :: o in r ==> o in ns
  {
    if ns == [] then []
    else
      var sorted := SortNotes(ns[..|ns| - 1]);
      assert forall o :: o in sorted ==> o in ns;
      InsertNote(ns[|ns| - 1], sorted)
  }

  /** `InsertNote` is the splice at the first strictly older object. */
  lemma {:induction false} InsertNoteAt(x: Note, r: seq<Note>, j: nat)
    requires j <= |r|
    requires forall i :: 0 <= i < j ==> r[i].updatedAt >= x.updatedAt
    requires j == |r| || r[j].updatedAt < x.updatedAt
    ensures InsertNote(x, r) == r[..j] + [x] + r[j..]
  {
    if j == 0 {
      assert r[..0] == [] && r[0..] == r;
    } else {
      assert r[0].updatedAt >= x.updatedAt;
      var t := r[1..];
      InsertNoteAt(x, t, j - 1);
      assert InsertNote(x, r) == [r[0]] + InsertNote(x, t);
      assert t[..j - 1] == r[1..j];
      assert t[j - 1..] == r[j..];
      assert r[..j] == [r[0]] + r[1..j];
    }
  }

  /** Inserting an object inserts its values into the values. */
  lemma {:induction false} InsertNoteRecords(x: Note, r: seq<Note>)
    ensures Records(InsertNote(x, r)) == InsertByUpdated(x.Record(), Records(r))
  {
    if r == [] || r[0].updatedAt < x.updatedAt {
      RecordsConcat([x], r);
    } else {
      InsertNoteRecords(x, r[1..]);
      RecordsConcat([r[0]], InsertNote(x, r[1..]));
      RecordsSlice(r, 1);
    }
  }

  /** Inserting an object adds exactly that object. */
  lemma {:induction false} InsertNotePerm(x: Note, r: seq<Note>)
    ensures multiset(InsertNote(x, r)) == multiset(r) + multiset{x}
  {
    if r != [] && r[0].updatedAt >= x.updatedAt {
      InsertNotePerm(x, r[1..]);
      assert r == [r[0]] + r[1..];
    }
  }

  /** Sorting the objects reorders them: no object is lost, added or duplicated. */
  lemma {:induction false} SortNotesPerm(ns: seq<Note>)
    ensures multiset(SortNotes(ns)) == multiset(ns)
  {
    if ns != [] {
      var init, x := ns[..|ns| - 1], ns[|ns| - 1];
      SortNotesPerm(init);
      InsertNotePerm(x, SortNotes(init));
      assert ns == init + [x];
    }
  }

  /** The sorted objects' values are the stable newest-first order of the values. */
  lemma {:induction false} SortNotesRecords(ns: seq<Note>)
    ensures Records(SortNotes(ns)) == SortByUpdated(Records(ns))
  {
    if ns != [] {
      var init, x := ns[..|ns| - 1], ns[|ns| - 1];
      SortNotesRecords(init);
      InsertNoteRecords(x, SortNotes(init));
      SortPrefixStep(ns, |ns| - 1);
      assert ns[..|ns|] == ns;
    }
  }

  /** The objects whose `updatedAt` is `k`, in their order: what a stable sort must not reorder. */
  function NotesWithUpdated(ns: seq<Note>, k: int): seq<Note>
    reads ns
  {
    if ns == [] then []
    else (if ns[0].updatedAt == k then [ns[0]] else []) + NotesWithUpdated(ns[1..], k)
  }

  /** Newest first, on the objects: `updatedAt` never increases along the sequence. */
  predicate NotesNewestFirst(r: seq<Note>)
    reads r
  {
    forall i, j :: 0 <= i < j < |r| ==> r[i].updatedAt >= r[j].updatedAt
  }

  lemma {:induction false} NotesWithUpdatedConcat(a: seq<Note>, b: seq<Note>, k: int)
    ensures NotesWithUpdated(a + b, k) == NotesWithUpdated(a, k) + NotesWithUpdated(b, k)
  {
    if a == [] {
      assert a + b == b;
    } else {
      var head := if a[0].updatedAt == k then [a[0]] else [];
      assert (a + b)[0] == a[0] && (a + b)[1..] == a[1..] + b;
      NotesWithUpdatedConcat(a[1..], b, k);
      calc {
        NotesWithUpdated(a + b, k);
        head + NotesWithUpdated(a[1..] + b, k);
        head + (NotesWithUpdated(a[1..], k) + NotesWithUpdated(b, k));
        (head + NotesWithUpdated(a[1..], k)) + NotesWithUpdated(b, k);
      }
    }
  }

  lemma {:induction false} NotesWithUpdatedNone(r: seq<Note>, k: int)
    requires forall i :: 0 <= i < |r| ==> r[i].updatedAt != k
    ensures NotesWithUpdated(r, k) == []
  {
    if r != [] {
      NotesWithUpdatedNone(r[1..], k);
    }
  }

  /** Inserting an object into objects sorted newest first puts it behind every object with its timestamp. */
  lemma {:induction false} InsertNoteStable(x: Note, r: seq<Note>, k: int)
    requires NotesNewestFirst(r)
    ensures NotesWithUpdated(InsertNote(x, r), k)
            == NotesWithUpdated(r, k) + (if x.updatedAt == k then [x] else [])
  {
    var last := if x.updatedAt == k then [x] else [];
    if r == [] || r[0].updatedAt < x.updatedAt {
      assert InsertNote(x, r) == [x] + r;
      NotesWithUpdatedConcat([x], r, k);
      assert NotesWithUpdated([x], k) == last;
      if x.updatedAt == k {
        assert forall i :: 0 <= i < |r| ==> r[i].updatedAt <= r[0].updatedAt;
        NotesWithUpdatedNone(r, k);
      }
    } else {
      var t := r[1..];
      assert NotesNewestFirst(t) by {
        assert forall i :: 0 <= i < |t| ==> t[i] == r[i + 1];
      }
      InsertNoteStable(x, t, k);
      assert InsertNote(x, r) == [r[0]] + InsertNote(x, t);
      NotesWithUpdatedConcat([r[0]], InsertNote(x, t), k);
      NotesWithUpdatedConcat([r[0]], t, k);
      assert [r[0]] + t == r;
    }
  }

  /** The object sort puts the objects newest first. */
  lemma SortNotesSorted(ns: seq<Note>)
    ensures NotesNewestFirst(SortNotes(ns))
  {
    SortNotesRecords(ns);
    SortByUpdatedSpec(Records(ns));
    var r := SortNotes(ns);
    forall i, j | 0 <= i < j < |r|
      ensures r[i].updatedAt >= r[j].updatedAt
    {
      assert Records(r)[i] == r[i].Record() && Records(r)[j] == r[j].Record();
    }
  }

  /**
    The object sort is stable on the objects themselves: for every timestamp, the objects that
    carry it come out in their input order, even distinct objects holding identical values.
   */
  lemma {:induction false} SortNotesStable(ns: seq<Note>, k: int)
    ensures NotesWithUpdated(SortNotes(ns), k) == NotesWithUpdated(ns, k)
  {
    if ns != [] {
      var init, x := ns[..|ns| - 1], ns[|ns| - 1];
      SortNotesStable(init, k);
      SortNotesSorted(init);
      InsertNoteStable(x, SortNotes(init), k);
      NotesWithUpdatedConcat(init, [x], k);
      assert NotesWithUpdated([x], k) == if x.updatedAt == k then [x] else [];
      assert ns == init + [x];
    }
  }

  /**
    The listing `getFilteredNotes` returns, on the objects: the filtered objects in stable
    newest-first order. Its values are the query listing of the collection's values.
   */
  lemma FilteredListing(ns: seq<Note>, category: string, term: string)
    ensures Records(SortNotes(FilterNoteObjects(ns, category, term))) == Query(Records(ns), category, term)
    ensures multiset(SortNotes(FilterNoteObjects(ns, category, term))) <= multiset(ns)
    ensures category == AllCategories && term == "" ==> multiset(SortNotes(FilterNoteObjects(ns, category, term))) == multiset(ns)
  {
    var filtered := FilterNoteObjects(ns, category, term);
    SortNotesRecords(filtered);
    SortNotesPerm(filtered);
  }

  /** Sorting one more object inserts it into the sorted earlier objects. */
  lemma SortNotesStep(ns: seq<Note>, i: nat)
    requires i < |ns|
    ensures SortNotes(ns[..i + 1]) == InsertNote(ns[i], SortNotes(ns[..i]))
  {
    assert ns[..i + 1][..i] == ns[..i];
  }

  /** The first position in `r` holding an object strictly older than `x`, or `|r|`. */
  method InsertionPoint(r: seq<Note>, x: Note) returns (j: nat)
    ensures j <= |r|
    ensures forall k :: 0 <= k < j ==> r[k].updatedAt >= x.updatedAt
    ensures j == |r| || r[j].updatedAt < x.updatedAt
  {
    j := 0;
    while j < |r| && r[j].updatedAt >= x.updatedAt
      invariant j <= |r|
      invariant forall k :: 0 <= k < j ==> r[k].updatedAt >= x.updatedAt
    {
      j := j + 1;
    }
  }

  /**
    `ns.sort((a, b) => b.updatedAt - a.updatedAt)`: the same objects reordered into the
    stable newest-first order, by an insertion sort. Every stable sort gives these values
    (`StableSortIsUnique`). This is the loop form of `SortNotes`; `GetFilteredNotes` computes its
    listing with the function.
   */
  method SortNewestFirst(ns: seq<Note>) returns (r: seq<Note>)
    ensures r == SortNotes(ns)
    ensures multiset(r) == multiset(ns)
    ensures Records(r) == SortByUpdated(Records(ns))
  {
    r := [];
    var i := 0;
    while i < |ns|
      invariant 0 <= i <= |ns|
      invariant r == SortNotes(ns[..i])
    {
      var j := InsertionPoint(r, ns[i]);
      InsertNoteAt(ns[i], r, j);
      SortNotesStep(ns, i);
      r := r[..j] + [ns[i]] + r[j..];
      i := i + 1;
    }
    assert ns[..i] == ns;
    SortNotesPerm(ns);
    SortNotesRecords(ns);
  }

  /** A note with the editor's title, content and category saved into it at time `now`. */
  function Saved(n: NoteRecord, title: string, content: string, category: string, now: int): NoteRecord
  {
    n.(title := title, content := content, category := category, updatedAt := now)
  }

  class NoteApp {
    var notes: seq<Note>
    var currentNote: Note?
    var currentCategory: string
    var searchTerm: string
    /** Whether an auto-save timer is pending (`autoSaveTimeout`). */
    var autoSavePending: bool
    /** The collection as `saveToStorage` last wrote it. */
    var stored: seq<NoteRecord>

    /** The collection's current values. */
    function Contents(): seq<NoteRecord>
      reads this, notes
    {
      Records(notes)
    }

    /** The objects the sidebar lists: the filtered collection in stable newest-first order. */
    function Listing(): seq<Note>
      reads this, notes
    {
      SortNotes(FilterNoteObjects(notes, currentCategory, searchTerm))
    }

    /**
      The note open in the editor, if any, is one of the collection's objects, so that a save
      reaches the collection. A sidebar click as written breaks it.
     */
    ghost predicate Valid()
      reads this
    {
      currentNote != null ==> currentNote in notes
    }

    /** The application started on the collection `loaded` from storage (an absent entry gives none). */
    constructor (loaded: seq<NoteRecord>)
      ensures Contents() == loaded && stored == loaded
      ensures currentNote == null && currentCategory == AllCategories && searchTerm == ""
      ensures !autoSavePending && Valid()
    {
      var objects: seq<Note> := [];
      var i := 0;
      while i < |loaded|
        invariant 0 <= i <= |loaded|
        invariant Records(objects) == loaded[..i]
      {
        var n := new Note(loaded[i]);
        assert Records(objects + [n]) == Records(objects) + [n.Record()];
        objects := objects + [n];
        i := i + 1;
      }
      assert loaded[..i] == loaded;
      notes := objects;
      currentNote := null;
      currentCategory := AllCategories;
      searchTerm := "";
      autoSavePending := false;
      stored := loaded;
    }

    /** `createNewNote`: a blank personal note goes to the front and opens in the editor. */
    method CreateNewNote(id: string, createdAt: int, updatedAt: int)
      modifies this
      ensures fresh(currentNote) && notes == [currentNote] + old(notes)
      ensures Contents() == [NewNote(id, createdAt, updatedAt)] + old(Contents())
      ensures stored == Contents()
      ensures currentCategory == old(currentCategory) && searchTerm == old(searchTerm)
      ensures autoSavePending == old(autoSavePending)
      ensures Valid()
    {
      var n := new Note(NewNote(id, createdAt, updatedAt));
      notes := [n] + notes;
      currentNote := n;
      stored := Contents();
    }

    /**
      `saveNote`: with no note open nothing happens; otherwise the open note object takes the
      editor's values and the time `now`, every other object keeps its values, and storage is rewritten.
     */
    method SaveNote(title: string, content: string, category: string, now: int)
      modifies this`stored, currentNote
      ensures old(currentNote) == null ==> stored == old(stored) && Contents() == old(Contents())
      ensures currentNote != null ==> currentNote.Record() == Saved(old(currentNote.Record()), title, content, category, now)
      ensures currentNote != null ==> stored == Contents()
      ensures currentNote != null && old(Valid()) ==>
                exists i :: 0 <= i < |notes| && Contents()[i] == Saved(old(currentNote.Record()), title, content, category, now)
      ensures |Contents()| == |old(Contents())|
      ensures forall i :: 0 <= i < |notes| ==>
                Contents()[i] == if notes[i] == currentNote
                                 then Saved(old(Contents())[i], title, content, category, now)
                                 else old(Contents())[i]
    {
      if currentNote == null {
        return;
      }
      currentNote.title := title;
      currentNote.content := content;
      currentNote.category := category;
      currentNote.updatedAt := now;
      stored := Contents();
    }

    /** `autoSave`: with a note open, any pending timer is replaced by one new pending timer. */
    method AutoSave()
      modifies this`autoSavePending
      ensures autoSavePending == (old(autoSavePending) || currentNote != null)
    {
      if currentNote == null {
        return;
      }
      autoSavePending := true;
    }

    /** The pending auto-save timer fires: `saveNote` runs once with the editor's values at that moment. */
    method AutoSaveFires(title: string, content: string, category: string, now: int)
      requires autoSavePending
      modifies this`stored, this`autoSavePending, currentNote
      ensures !autoSavePending
      ensures old(currentNote) == null ==> stored == old(stored) && Contents() == old(Contents())
      ensures currentNote != null ==> currentNote.Record() == Saved(old(currentNote.Record()), title, content, category, now)
      ensures currentNote != null ==> stored == Contents()
      ensures forall i :: 0 <= i < |notes| ==>
                Contents()[i] == if notes[i] == currentNote
                                 then Saved(old(Contents())[i], title, content, category, now)
                                 else old(Contents())[i]
    {
      autoSavePending := false;
      SaveNote(title, content, category, now);
    }

    /**
      `deleteNote`, with the user's answer to the confirmation dialog as `confirmed`: every note
      with the open note's id leaves the collection, the editor closes and storage is rewritten.
      The auto-save timer is not cancelled.
     */
    method DeleteNote(confirmed: bool)
      modifies this
      ensures old(currentNote) == null || !confirmed ==>
                notes == old(notes) && currentNote == old(currentNote) && stored == old(stored)
      ensures old(currentNote) != null && confirmed ==>
                notes == old(KeepNotes(notes, HasOtherId(currentNote.id)))
      ensures old(currentNote) != null && confirmed ==>
                Contents() == Keep(old(Contents()), HasOtherId(old(currentNote.id)))
                && multiset(notes) <= multiset(old(notes))
                && currentNote == null && stored == Contents()
      ensures currentCategory == old(currentCategory) && searchTerm == old(searchTerm)
      ensures autoSavePending == old(autoSavePending)
    {
      if currentNote == null || !confirmed {
        return;
      }
      var kept := KeepNotes(notes, HasOtherId(currentNote.id));
      assert Records(kept) == Keep(Contents(), HasOtherId(currentNote.id));
      notes, currentNote, stored := kept, null, Records(kept);
    }

    /** The search box's input handler: the term is stored lower-cased. */
    method SetSearchTerm(value: string)
      modifies this`searchTerm
      ensures searchTerm == LowerString(value)
    {
      searchTerm := LowerString(value);
    }

    /** A click on a sidebar category. */
    method SetCategory(category: string)
      modifies this`currentCategory
      ensures currentCategory == category
    {
      currentCategory := category;
    }

    /**
      `getFilteredNotes`: the note objects to list, in the stable object order `SortNotes` (whose
      loop form is `SortNewestFirst`), with values that the query rule lists. With both filters off the sort runs on the collection
      itself, which is left in that order.
     */
    method GetFilteredNotes() returns (r: seq<Note>)
      modifies this`notes
      ensures r == old(Listing())
      ensures Records(r) == Query(old(Contents()), currentCategory, searchTerm)
      ensures multiset(r) <= multiset(old(notes))
      ensures if currentCategory == AllCategories && searchTerm == "" then notes == r else notes == old(notes)
      ensures old(Valid()) ==> Valid()
    {
      r := Listing();
      FilteredListing(notes, currentCategory, searchTerm);
      if currentCategory == AllCategories && searchTerm == "" {
        assert currentNote != null && currentNote in notes ==> currentNote in multiset(r);
        notes := r;
      }
    }

    /**
      A click on a sidebar entry as written: the handler rebuilds the note from its serialized
      form, so the editor opens a new object equal to `shown` but outside the collection.
     */
    method SelectFromListAsWritten(shown: NoteRecord)
      modifies this`currentNote
      ensures fresh(currentNote) && currentNote.Record() == shown
      ensures currentNote !in notes && !Valid()
    {
      var copy := new Note(shown);
      currentNote := copy;
    }

    /** A click on a sidebar entry resolved by id: the editor opens the collection's own object. */
    method SelectById(id: string) returns (found: bool)
      modifies this`currentNote
      ensures found <==> exists i :: 0 <= i < |notes| && notes[i].id == id
      ensures found ==> exists i :: 0 <= i < |notes| && notes[i] == currentNote && currentNote.id == id
                                   && forall k :: 0 <= k < i ==> notes[k].id != id
      ensures !found ==> currentNote == old(currentNote)
      ensures old(Valid()) ==> Valid()
    {
      var i := 0;
      while i < |notes| && notes[i].id != id
        invariant 0 <= i <= |notes|
        invariant forall k :: 0 <= k < i ==> notes[k].id != id
      {
        i := i + 1;
      }
      found := i < |notes|;
      if found {
        currentNote := notes[i];
        assert notes[i].id == id;
      } else {
        assert forall k :: 0 <= k < |notes| ==> notes[k].id != id;
      }
    }

    /**
      A sidebar click followed by a save, as written: the save lands on the detached copy, so
      every note in the collection keeps its values and storage is rewritten with the old values.
     */
    method ClickThenSaveAsWritten(shown: NoteRecord, title: string, content: string, category: string, now: int)
      modifies this`currentNote, this`stored
      ensures Contents() == old(Contents()) && stored == old(Contents())
      ensures currentNote != null && currentNote !in notes
      ensures currentNote != null ==> currentNote.Record() == Saved(shown, title, content, category, now)
    {
      SelectFromListAsWritten(shown);
      SaveNote(title, content, category, now);
    }

    /**
      A sidebar click resolved by id followed by a save: the first note with that id (and any
      other position holding the same object) takes the editor's values; every other note keeps its own.
     */
    method ClickThenSave(id: string, title: string, content: string, category: string, now: int)
      returns (found: bool)
      modifies this`currentNote, this`stored, notes
      ensures found <==> exists i :: 0 <= i < |notes| && old(Contents())[i].id == id
      ensures found ==> exists i :: 0 <= i < |notes| && notes[i] == currentNote
                                   && old(Contents())[i].id == id
                                   && (forall k :: 0 <= k < i ==> old(Contents())[k].id != id)
                                   && Contents()[i] == Saved(old(Contents())[i], title, content, category, now)
      ensures found ==> stored == Contents()
      ensures !found ==> stored == old(stored) && Contents() == old(Contents()) && currentNote == old(currentNote)
      ensures forall i :: 0 <= i < |notes| && notes[i] != currentNote ==> Contents()[i] == old(Contents())[i]
    {
      found := SelectById(id);
      assert forall i :: 0 <= i < |notes| ==> old(Contents())[i].id == notes[i].id;
      if found {
        SaveNote(title, content, category, now);
      }
    }
  }
}
