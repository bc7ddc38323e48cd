/**
  The note collection as values, and the query rule of `NoteApp.getFilteredNotes`:
  keep the notes of the selected category (unless it is "all"), keep the notes whose
  lower-cased title or content contains the search term (unless the term is empty),
  then order them by `updatedAt`, newest first, with a stable sort.
 */
module Notes {
  import opened Text

  /** One note as the application stores it; timestamps are milliseconds since the epoch. */
  datatype NoteRecord = NoteRecord(
    id: string,
    title: string,
    content: string,
    category: string,
    createdAt: int,
    updatedAt: int)

  /** The category a new note starts in. */
  const DefaultCategory: string := "personal"

  /** The sidebar entry that switches the category filter off. */
  const AllCategories: string := "all"

  // ---------------------------------------------------------------------------
  // Array.prototype.filter
  // ---------------------------------------------------------------------------

  /** `s.filter(p)`: the elements of `s` that satisfy `p`, in their original order. */
  function Keep(s: seq<NoteRecord>, p: NoteRecord -> bool): (r: seq<NoteRecord>)
    ensures |r| <= |s|
  {
    if s == [] then [] else (if p(s[0]) then [s[0]] else []) + Keep(s[1..], p)
  }

  /** The filter keeps every element that satisfies `p`, as often as it occurs, and no other. */
  lemma {:induction false} KeepMembers(s: seq<NoteRecord>, p: NoteRecord -> bool)
    ensures forall n :: multiset(Keep(s, p))[n] == if p(n) then multiset(s)[n] else 0
    ensures forall n :: n in Keep(s, p) <==> n in s && p(n)
  {
    if s != [] {
      KeepMembers(s[1..], p);
      assert s == [s[0]] + s[1..];
    }
  }

  /** Filtering a concatenation filters each part: the survivors keep their relative order. */
  lemma {:induction false} KeepAppend(a: seq<NoteRecord>, b: seq<NoteRecord>, p: NoteRecord -> bool)
    ensures Keep(a + b, p) == Keep(a, p) + Keep(b, p)
  {
    if a != [] {
      assert (a + b)[1..] == a[1..] + b;
      KeepAppend(a[1..], b, p);
    } else {
      assert a + b == b;
    }
  }

  /** A filter that no element fails returns its input unchanged. */
  lemma {:induction false} KeepAll(s: seq<NoteRecord>, p: NoteRecord -> bool)
    requires forall i :: 0 <= i < |s| ==> p(s[i])
    ensures Keep(s, p) == s
  {
    if s != [] {
      KeepAll(s[1..], p);
    }
  }

  /** A filter that every element fails returns the empty sequence. */
  lemma {:induction false} KeepNone(s: seq<NoteRecord>, p: NoteRecord -> bool)
    requires forall i :: 0 <= i < |s| ==> !p(s[i])
    ensures Keep(s, p) == []
  {
    if s != [] {
      KeepNone(s[1..], p);
    }
  }

  // ---------------------------------------------------------------------------
  // The predicates the application filters by
  // ---------------------------------------------------------------------------

  /** `note => note.category === category` */
  function InCategory(category: string): NoteRecord -> bool
  {
    (n: NoteRecord) => n.category == category
  }

  /** The search rule: the lower-cased title or the lower-cased content contains `term`. */
  predicate MatchesSearch(n: NoteRecord, term: string)
  {
    Includes(LowerString(n.title), term) || Includes(LowerString(n.content), term)
  }

  /** `note => note.title.toLowerCase().includes(term) || note.content.toLowerCase().includes(term)` */
  function Matching(term: string): NoteRecord -> bool
  {
    (n: NoteRecord) => MatchesSearch(n, term)
  }

  /** `note => note.id !== id` */
  function HasOtherId(id: string): NoteRecord -> bool
  {
    (n: NoteRecord) => n.id != id
  }

  /** The notes whose `updatedAt` is `k`, in their order: what a stable sort must not reorder. */
  function WithUpdated(s: seq<NoteRecord>, k: int): seq<NoteRecord>
  {
    Keep(s, UpdatedAt(k))
  }

  function UpdatedAt(k: int): NoteRecord -> bool
  {
    (n: NoteRecord) => n.updatedAt == k
  }

  /** A note passes both filters of the query. */
  predicate Selected(n: NoteRecord, category: string, term: string)
  {
    (category == AllCategories || n.category == category) && (term == "" || MatchesSearch(n, term))
  }

  function SelectedBy(category: string, term: string): NoteRecord -> bool
  {
    (n: NoteRecord) => Selected(n, category, term)
  }

  // ---------------------------------------------------------------------------
  // The two filters of getFilteredNotes
  // ---------------------------------------------------------------------------

  /** The category filter followed by the search filter, each skipped when switched off. */
  function FilterNotes(s: seq<NoteRecord>, category: string, term: string): seq<NoteRecord>
  {
    var byCategory := if category != AllCategories then Keep(s, InCategory(category)) else s;
    if term != "" then Keep(byCategory, Matching(term)) else byCategory
  }

  /** Filtering twice keeps exactly the elements that pass both filters, in their order. */
  lemma {:induction false} KeepKeep(s: seq<NoteRecord>, p: NoteRecord -> bool, q: NoteRecord -> bool,
                                    pq: NoteRecord -> bool)
    requires forall n :: pq(n) == (p(n) && q(n))
    ensures Keep(Keep(s, p), q) == Keep(s, pq)
  {
    if s != [] {
      KeepKeep(s[1..], p, q, pq);
      assert pq(s[0]) == (p(s[0]) && q(s[0]));
      if p(s[0]) {
        assert Keep(s, p) == [s[0]] + Keep(s[1..], p);
        assert ([s[0]] + Keep(s[1..], p))[1..] == Keep(s[1..], p);
      } else {
        assert Keep(s, p) == Keep(s[1..], p);
        assert Keep(s, pq) == Keep(s[1..], pq);
      }
    }
  }

  /** The two filters together are one filter by `Selected`, so the surviving notes keep their order. */
  lemma FilterNotesIsOneFilter(s: seq<NoteRecord>, category: string, term: string)
    ensures FilterNotes(s, category, term) == Keep(s, SelectedBy(category, term))
  {
    var sel := SelectedBy(category, term);
    if category != AllCategories && term != "" {
      KeepKeep(s, InCategory(category), Matching(term), sel);
    } else if category != AllCategories {
      KeepKeep(s, InCategory(category), (n: NoteRecord) => true, sel);
      KeepAll(Keep(s, InCategory(category)), (n: NoteRecord) => true);
    } else if term != "" {
      KeepKeep(s, (n: NoteRecord) => true, Matching(term), sel);
      KeepAll(s, (n: NoteRecord) => true);
    } else {
      KeepAll(s, sel);
    }
  }

  // ---------------------------------------------------------------------------
  // Array.prototype.sort((a, b) => b.updatedAt - a.updatedAt), a stable sort
  // ---------------------------------------------------------------------------

  /** Newest first: `updatedAt` never increases along the sequence. */
  predicate SortedNewestFirst(s: seq<NoteRecord>)
  {
    forall i, j :: 0 <= i < j < |s| ==> s[i].updatedAt >= s[j].updatedAt
  }

  /** Put `x` after every leading note that is at least as recent, so that it follows its equals. */
  function InsertByUpdated(x: NoteRecord, s: seq<NoteRecord>): (r: seq<NoteRecord>)
    ensures |r| == |s| + 1
  {
    if s == [] || s[0].updatedAt < x.updatedAt then [x] + s
    else [s[0]] + InsertByUpdated(x, s[1..])
  }

  /**
    The stable newest-first order, as insertion sort computes it: each note is inserted into
    the sorted earlier notes behind the ones with the same `updatedAt`.
   */
  function SortByUpdated(s: seq<NoteRecord>): (r: seq<NoteRecord>)
    ensures |r| == |s|
  {
    if s == [] then []
    else InsertByUpdated(s[|s| - 1], SortByUpdated(s[..|s| - 1]))
  }

  /** `InsertByUpdated` is the splice at the first strictly older note. */
  lemma {:induction false} InsertByUpdatedAt(x: NoteRecord, s: seq<NoteRecord>, j: nat)
    requires j <= |s|
    requires forall i :: 0 <= i < j ==> s[i].updatedAt >= x.updatedAt
    requires j == |s| || s[j].updatedAt < x.updatedAt
    ensures InsertByUpdated(x, s) == s[..j] + [x] + s[j..]
  {
    if j == 0 {
      assert s[..0] == [] && s[0..] == s;
    } else {
      assert s[0].updatedAt >= x.updatedAt;
      var t := s[1..];
      InsertByUpdatedAt(x, t, j - 1);
      assert InsertByUpdated(x, s) == [s[0]] + InsertByUpdated(x, t);
      assert t[..j - 1] == s[1..j];
      assert t[j - 1..] == s[j..];
      assert s[..j] == [s[0]] + s[1..j];
    }
  }

  /** Inserting adds exactly `x`. */
  lemma {:induction false} InsertByUpdatedPerm(x: NoteRecord, s: seq<NoteRecord>)
    ensures multiset(InsertByUpdated(x, s)) == multiset(s) + multiset{x}
  {
    if s != [] && s[0].updatedAt >= x.updatedAt {
      InsertByUpdatedPerm(x, s[1..]);
      assert s == [s[0]] + s[1..];
    }
  }

  /** The sort is a permutation of its input. */
  lemma {:induction false} SortByUpdatedPerm(s: seq<NoteRecord>)
    ensures multiset(SortByUpdated(s)) == multiset(s)
  {
    if s != [] {
      SortByUpdatedPerm(s[..|s| - 1]);
      InsertByUpdatedPerm(s[|s| - 1], SortByUpdated(s[..|s| - 1]));
      assert s == s[..|s| - 1] + [s[|s| - 1]];
    }
  }

  /** Inserting into a newest-first sequence keeps it newest first. */
  lemma {:induction false} InsertByUpdatedSorted(x: NoteRecord, s: seq<NoteRecord>)
    requires SortedNewestFirst(s)
    ensures SortedNewestFirst(InsertByUpdated(x, s))
  {
    if s != [] && s[0].updatedAt >= x.updatedAt {
      var t := InsertByUpdated(x, s[1..]);
      InsertByUpdatedSorted(x, s[1..]);
      InsertByUpdatedPerm(x, s[1..]);
      forall i | 0 <= i < |t|
        ensures t[i].updatedAt <= s[0].updatedAt
      {
        assert t[i] in multiset(t);
        if t[i] != x {
          assert t[i] in multiset(s[1..]);
          var k :| 0 <= k < |s[1..]| && s[1..][k] == t[i];
          assert s[k + 1] == t[i];
        }
      }
      assert InsertByUpdated(x, s) == [s[0]] + t;
    }
  }

  /** Inserting into a sorted sequence appends `x` to the notes that share its `updatedAt`. */
  lemma {:induction false} InsertByUpdatedStable(x: NoteRecord, s: seq<NoteRecord>, k: int)
    requires SortedNewestFirst(s)
    ensures WithUpdated(InsertByUpdated(x, s), k)
         == WithUpdated(s, k) + (if x.updatedAt == k then [x] else [])
  {
    if s == [] {
    } else if s[0].updatedAt < x.updatedAt {
      assert ([x] + s)[1..] == s;
      if x.updatedAt == k {
        KeepNone(s, UpdatedAt(k));
      }
    } else {
      InsertByUpdatedStable(x, s[1..], k);
      assert ([s[0]] + InsertByUpdated(x, s[1..]))[1..] == InsertByUpdated(x, s[1..]);
    }
  }

  /** The sort orders newest first and keeps notes with equal `updatedAt` in their input order. */
  lemma {:induction false} SortByUpdatedSpec(s: seq<NoteRecord>)
    ensures SortedNewestFirst(SortByUpdated(s))
    ensures forall k :: WithUpdated(SortByUpdated(s), k) == WithUpdated(s, k)
  {
    if s != [] {
      var init, last := s[..|s| - 1], s[|s| - 1];
      assert s == init + [last];
      SortByUpdatedSpec(init);
      InsertByUpdatedSorted(last, SortByUpdated(init));
      forall k
        ensures WithUpdated(SortByUpdated(s), k) == WithUpdated(s, k)
      {
        InsertByUpdatedStable(last, SortByUpdated(init), k);
        KeepAppend(init, [last], UpdatedAt(k));
      }
    }
  }

  /** The first element of a newest-first sequence is at least as recent as every element. */
  lemma HeadIsNewest(s: seq<NoteRecord>, n: NoteRecord)
    requires SortedNewestFirst(s) && n in s
    ensures s[0].updatedAt >= n.updatedAt
  {
    var i :| 0 <= i < |s| && s[i] == n;
    if i > 0 {
      assert s[0].updatedAt >= s[i].updatedAt;
    }
  }

  lemma WithUpdatedCons(r: seq<NoteRecord>, k: int)
    requires r != []
    ensures WithUpdated(r, k) == (if r[0].updatedAt == k then [r[0]] else []) + WithUpdated(r[1..], k)
  {
  }

  /** A note is in the per-timestamp list of its own `updatedAt` exactly when it is in the sequence. */
  lemma InWithUpdated(r: seq<NoteRecord>, n: NoteRecord)
    ensures n in WithUpdated(r, n.updatedAt) <==> n in r
  {
    KeepMembers(r, UpdatedAt(n.updatedAt));
  }

  /** Two non-empty newest-first sequences with the same notes per `updatedAt` start alike. */
  lemma SortedStableHead(r1: seq<NoteRecord>, r2: seq<NoteRecord>)
    requires r1 != [] && r2 != []
    requires SortedNewestFirst(r1) && SortedNewestFirst(r2)
    requires forall k :: WithUpdated(r1, k) == WithUpdated(r2, k)
    ensures r1[0] == r2[0]
  {
    var m1, m2 := r1[0].updatedAt, r2[0].updatedAt;
    assert WithUpdated(r1, m1) == WithUpdated(r2, m1);
    assert WithUpdated(r1, m2) == WithUpdated(r2, m2);
    InWithUpdated(r1, r1[0]);
    InWithUpdated(r2, r1[0]);
    HeadIsNewest(r2, r1[0]);
    InWithUpdated(r2, r2[0]);
    InWithUpdated(r1, r2[0]);
    HeadIsNewest(r1, r2[0]);
    assert m1 == m2;
    WithUpdatedCons(r1, m1);
    WithUpdatedCons(r2, m1);
    assert WithUpdated(r1, m1)[0] == r1[0];
    assert WithUpdated(r2, m1)[0] == r2[0];
  }

  /** Two newest-first sequences with the same notes per `updatedAt`, in the same order, are equal. */
  lemma {:induction false} SortedStableUnique(r1: seq<NoteRecord>, r2: seq<NoteRecord>)
    requires SortedNewestFirst(r1) && SortedNewestFirst(r2)
    requires forall k :: WithUpdated(r1, k) == WithUpdated(r2, k)
    ensures r1 == r2
    decreases |r1|
  {
    if r1 == [] && r2 != [] {
      InWithUpdated(r2, r2[0]);
    } else if r2 == [] && r1 != [] {
      InWithUpdated(r1, r1[0]);
    } else if r1 != [] {
      SortedStableHead(r1, r2);
      forall k
        ensures WithUpdated(r1[1..], k) == WithUpdated(r2[1..], k)
      {
        WithUpdatedCons(r1, k);
        WithUpdatedCons(r2, k);
        assert WithUpdated(r1, k) == WithUpdated(r2, k);
        if r1[0].updatedAt == k {
          assert WithUpdated(r1[1..], k) == WithUpdated(r1, k)[1..];
          assert WithUpdated(r2[1..], k) == WithUpdated(r2, k)[1..];
        } else {
          assert WithUpdated(r1[1..], k) == WithUpdated(r1, k);
          assert WithUpdated(r2[1..], k) == WithUpdated(r2, k);
        }
      }
      SortedStableUnique(r1[1..], r2[1..]);
      assert r1 == [r1[0]] + r1[1..];
      assert r2 == [r2[0]] + r2[1..];
    }
  }

  /**
    Any newest-first ordering that keeps equal timestamps in input order is `SortByUpdated`:
    the order a stable sort produces does not depend on the sorting algorithm.
   */
  lemma StableSortIsUnique(s: seq<NoteRecord>, r: seq<NoteRecord>)
    requires SortedNewestFirst(r)
    requires forall k :: WithUpdated(r, k) == WithUpdated(s, k)
    ensures r == SortByUpdated(s)
  {
    SortByUpdatedSpec(s);
    SortedStableUnique(r, SortByUpdated(s));
  }

  // ---------------------------------------------------------------------------
  // getFilteredNotes
  // ---------------------------------------------------------------------------

  /** The list the sidebar shows for a category filter and an (already lower-cased) search term. */
  function Query(s: seq<NoteRecord>, category: string, term: string): seq<NoteRecord>
  {
    SortByUpdated(FilterNotes(s, category, term))
  }

  /**
    The query returns the selected notes and nothing else, each as often as in the collection,
    newest first, with notes of equal `updatedAt` in collection order.
   */
  lemma QuerySpec(s: seq<NoteRecord>, category: string, term: string)
    ensures SortedNewestFirst(Query(s, category, term))
    ensures forall n :: multiset(Query(s, category, term))[n]
                        == if Selected(n, category, term) then multiset(s)[n] else 0
    ensures forall n :: n in Query(s, category, term) <==> n in s && Selected(n, category, term)
    ensures forall k :: WithUpdated(Query(s, category, term), k)
                        == WithUpdated(Keep(s, SelectedBy(category, term)), k)
  {
    var f := FilterNotes(s, category, term);
    FilterNotesIsOneFilter(s, category, term);
    KeepMembers(s, SelectedBy(category, term));
    SortByUpdatedSpec(f);
    SortByUpdatedPerm(f);
    assert multiset(Query(s, category, term)) == multiset(f);
    forall n
      ensures n in Query(s, category, term) <==> n in s && Selected(n, category, term)
    {
      assert n in Query(s, category, term) <==> n in multiset(f);
    }
  }

  /** With a category other than "all", every note shown has that category. */
  lemma QueryCategory(s: seq<NoteRecord>, category: string, term: string, n: NoteRecord)
    requires category != AllCategories && n in Query(s, category, term)
    ensures n.category == category && n in s
  {
    QuerySpec(s, category, term);
  }

  /** With a non-empty term, a note of the collection is shown iff its title or content contains the term. */
  lemma QuerySearch(s: seq<NoteRecord>, term: string, n: NoteRecord)
    requires term != "" && n in s
    ensures n in Query(s, AllCategories, term) <==>
            Contains(LowerString(n.title), term) || Contains(LowerString(n.content), term)
  {
    QuerySpec(s, AllCategories, term);
    assert n in Query(s, AllCategories, term) <==> Selected(n, AllCategories, term);
    assert Selected(n, AllCategories, term) <==> MatchesSearch(n, term);
    var title, content := LowerString(n.title), LowerString(n.content);
    IncludesIff(title, term);
    IncludesIff(content, term);
    assert MatchesSearch(n, term) <==> Includes(title, term) || Includes(content, term);
  }

  /** With no filter switched on, the query reorders the whole collection and loses nothing. */
  lemma QueryUnfiltered(s: seq<NoteRecord>)
    ensures multiset(Query(s, AllCategories, "")) == multiset(s)
    ensures Query(s, AllCategories, "") == SortByUpdated(s)
  {
    SortByUpdatedPerm(s);
  }

  /** Filtering a newest-first sequence leaves it newest-first. */
  lemma {:induction false} KeepSorted(s: seq<NoteRecord>, p: NoteRecord -> bool)
    requires SortedNewestFirst(s)
    ensures SortedNewestFirst(Keep(s, p))
  {
    if s != [] {
      var rest := Keep(s[1..], p);
      KeepSorted(s[1..], p);
      KeepMembers(s[1..], p);
      if p(s[0]) {
        var r := Keep(s, p);
        assert r == [s[0]] + rest;
        forall i, j | 0 <= i < j < |r|
          ensures r[i].updatedAt >= r[j].updatedAt
        {
          assert r[j] == rest[j - 1];
          if i == 0 {
            assert rest[j - 1] in s[1..];
          } else {
            assert r[i] == rest[i - 1];
          }
        }
      }
    }
  }

  /** A newest-first sequence is its own stable sort. */
  lemma SortSortedIsIdentity(r: seq<NoteRecord>)
    requires SortedNewestFirst(r)
    ensures SortByUpdated(r) == r
  {
    StableSortIsUnique(r, r);
  }

  /** The filter by `p` commutes with picking out one timestamp. */
  lemma WithUpdatedKeep(s: seq<NoteRecord>, p: NoteRecord -> bool, k: int)
    ensures WithUpdated(Keep(s, p), k) == Keep(WithUpdated(s, k), p)
  {
    var both := (n: NoteRecord) => p(n) && UpdatedAt(k)(n);
    KeepKeep(s, p, UpdatedAt(k), both);
    KeepKeep(s, UpdatedAt(k), p, both);
  }

  /**
    Re-sorting the collection newest first, as every render does when no filter is on, changes no
    listing: every query of the re-sorted collection equals the query of the collection.
   */
  lemma QueryAfterResort(s: seq<NoteRecord>, category: string, term: string)
    ensures Query(SortByUpdated(s), category, term) == Query(s, category, term)
  {
    var sel := SelectedBy(category, term);
    var sorted := SortByUpdated(s);
    var kept := Keep(sorted, sel);
    FilterNotesIsOneFilter(s, category, term);
    FilterNotesIsOneFilter(sorted, category, term);
    SortByUpdatedSpec(s);
    KeepSorted(sorted, sel);
    forall k
      ensures WithUpdated(kept, k) == WithUpdated(Keep(s, sel), k)
    {
      WithUpdatedKeep(sorted, sel, k);
      WithUpdatedKeep(s, sel, k);
    }
    StableSortIsUnique(Keep(s, sel), kept);
    SortSortedIsIdentity(kept);
  }

  /**
    A work note and a more recent personal note: the "work" entry lists only the first, and
    "all" lists both with the more recent one first.
   */
  lemma QueryTwoCategories(work: NoteRecord, personal: NoteRecord)
    requires work.category == "work" && personal.category == DefaultCategory
    requires work.updatedAt < personal.updatedAt
    ensures Query([work, personal], "work", "") == [work]
    ensures Query([work, personal], AllCategories, "") == [personal, work]
  {
    var s := [work, personal];
    var p := InCategory("work");
    assert p(work) && !p(personal);
    assert s[1..] == [personal] && [personal][1..] == [];
    assert Keep([personal], p) == [];
    assert Keep(s, p) == [work] + Keep([personal], p);
    assert FilterNotes(s, "work", "") == [work];
    assert [work][..0] == [];
    assert s[..1] == [work];
  }

  // ---------------------------------------------------------------------------
  // deleteNote's filter
  // ---------------------------------------------------------------------------

  /** No two notes of the collection share an id. */
  predicate UniqueIds(s: seq<NoteRecord>)
  {
    forall i, j :: 0 <= i < j < |s| ==> s[i].id != s[j].id
  }

  /** Removing the notes with `id` leaves none of them and every other note; with no such note it changes nothing. */
  lemma RemoveIdSpec(s: seq<NoteRecord>, id: string)
    ensures forall n :: n in Keep(s, HasOtherId(id)) <==> n in s && n.id != id
    ensures forall n :: multiset(Keep(s, HasOtherId(id)))[n] == if n.id != id then multiset(s)[n] else 0
    ensures (forall i :: 0 <= i < |s| ==> s[i].id != id) ==> Keep(s, HasOtherId(id)) == s
  {
    KeepMembers(s, HasOtherId(id));
    if forall i :: 0 <= i < |s| ==> s[i].id != id {
      KeepAll(s, HasOtherId(id));
    }
  }

  /** With unique ids, removing the id of a note of the collection shortens it by exactly one. */
  lemma {:induction false} RemoveIdRemovesOne(s: seq<NoteRecord>, id: string, i: nat)
    requires UniqueIds(s) && i < |s| && s[i].id == id
    ensures |Keep(s, HasOtherId(id))| == |s| - 1
  {
    if i == 0 {
      forall j | 0 <= j < |s[1..]|
        ensures s[1..][j].id != id
      {
        assert s[1..][j] == s[j + 1];
      }
      KeepAll(s[1..], HasOtherId(id));
    } else {
      assert s[0].id != id;
      assert s[1..][i - 1] == s[i];
      RemoveIdRemovesOne(s[1..], id, i - 1);
    }
  }

  // ---------------------------------------------------------------------------
  // createNewNote and deleteNote together
  // ---------------------------------------------------------------------------

  /** A blank note as `createNewNote` makes it. */
  function NewNote(id: string, createdAt: int, updatedAt: int): (n: NoteRecord)
    ensures n.id == id && n.title == "" && n.content == "" && n.category == DefaultCategory
  {
    NoteRecord(id, "", "", DefaultCategory, createdAt, updatedAt)
  }

  /** Prepending a note whose id is new keeps the ids unique. */
  lemma {:induction false} PrependKeepsUnique(n: NoteRecord, s: seq<NoteRecord>)
    requires UniqueIds(s) && forall i :: 0 <= i < |s| ==> s[i].id != n.id
    ensures UniqueIds([n] + s)
  {
    forall i, j | 0 <= i < j < |[n] + s|
      ensures ([n] + s)[i].id != ([n] + s)[j].id
    {
      if i == 0 {
        assert ([n] + s)[j] == s[j - 1];
      } else {
        assert ([n] + s)[i] == s[i - 1] && ([n] + s)[j] == s[j - 1];
      }
    }
  }

  /** Deleting a note that was just created with a new id gives back the collection as it was. */
  lemma {:induction false} DeleteUndoesCreate(n: NoteRecord, s: seq<NoteRecord>)
    requires forall i :: 0 <= i < |s| ==> s[i].id != n.id
    ensures Keep([n] + s, HasOtherId(n.id)) == s
  {
    assert ([n] + s)[1..] == s;
    KeepAll(s, HasOtherId(n.id));
  }
}
