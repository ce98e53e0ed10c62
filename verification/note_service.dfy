/** The note store and scheduler of `src/services/noteService.js`.

    The store owns two collections, the notes in insertion order and the
    saved tag registry. The operations that rewrite a collection are methods
    of `NoteStore`; each is specified by a function of the old collection
    (`WithUpdate`, `WithoutId`, `WithProgress`, `MergeTags`), and the
    properties of those functions are proved as lemmas. The queries are
    functions of the note list. The clock and the id generator are parameters. */
module NoteService {
  import opened Util
  import opened Text
  import opened Notes

  predicate AllWellFormed(notes: seq<Note>)
  {
    forall i :: 0 <= i < |notes| ==> WellFormed(notes[i])
  }

  // ---------------------------------------------------------------------
  // Lookup

  /** `notes.findIndex(n => n.id === id)`, with `None` for -1. */
  function FindIndex(notes: seq<Note>, id: string): (r: Option<nat>)
    ensures r.Some? ==> r.value < |notes| && notes[r.value].id == id
    ensures r.Some? ==> forall j :: 0 <= j < r.value ==> notes[j].id != id
    ensures r.None? <==> forall j :: 0 <= j < |notes| ==> notes[j].id != id
  {
    if notes == [] then None
    else if notes[0].id == id then Some(0)
    else match FindIndex(notes[1..], id)
      case None => None
      case Some(k) => Some(k + 1)
  }

  /** `getNote`: the first note with that id, if any. */
  function GetNote(notes: seq<Note>, id: string): (r: Option<Note>)
    ensures r.Some? ==> r.value in notes && r.value.id == id
    ensures r.None? <==> forall n :: n in notes ==> n.id != id
    ensures r.Some? ==>
      exists k :: 0 <= k < |notes| && notes[k] == r.value && forall j :: 0 <= j < k ==> notes[j].id != id
  {
    match FindIndex(notes, id)
    case None => None
    case Some(k) => Some(notes[k])
  }

  // ---------------------------------------------------------------------
  // Creating, editing, deleting and reviewing, as functions of the list

  /** The record `createNote` builds: a fresh note on the first rung, never
      reviewed, due one day after its creation. */
  function NewNote(id: string, title: string, description: string, tags: Option<seq<string>>, now: int): (n: Note)
    ensures WellFormed(n)
    ensures n.id == id && n.title == title && n.description == description
    ensures n.tags == (if tags.Some? then tags.value else [])
    ensures n.createdAt == now && n.lastReviewed == None && n.nextReview == now + DAY_MS
    ensures n.intervalIndex == 0 && n.reviewCount == 0 && n.successCount == 0
  {
    Note(id, title, description, if tags.Some? then tags.value else [],
         now, None, NextReview(now, 0), 0, 0, 0)
  }

  /** Two records agree on everything an edit must not touch: the id, the
      creation date and all scheduling fields. */
  predicate SameSchedule(a: Note, b: Note)
  {
    a.id == b.id && a.createdAt == b.createdAt && a.lastReviewed == b.lastReviewed &&
    a.nextReview == b.nextReview && a.intervalIndex == b.intervalIndex &&
    a.reviewCount == b.reviewCount && a.successCount == b.successCount
  }

  /** `updateNote`'s list: the first note with that id gets the new title,
      description and tags in place; nothing else changes. */
  function WithUpdate(notes: seq<Note>, id: string, title: string, description: string, tags: seq<string>): (r: seq<Note>)
    ensures |r| == |notes|
    ensures FindIndex(notes, id).None? ==> r == notes
    ensures forall j :: 0 <= j < |notes| && FindIndex(notes, id) != Some(j) ==> r[j] == notes[j]
    ensures FindIndex(notes, id).Some? ==>
      var k := FindIndex(notes, id).value;
      r[k].title == title && r[k].description == description && r[k].tags == tags &&
      SameSchedule(r[k], notes[k])
    ensures AllWellFormed(notes) ==> AllWellFormed(r)
  {
    match FindIndex(notes, id)
    case None => notes
    case Some(k) => notes[k := notes[k].(title := title, description := description, tags := tags)]
  }

  /** `deleteNote`'s list: every note with that id removed, the rest in order. */
  function WithoutId(notes: seq<Note>, id: string): (r: seq<Note>)
    ensures forall n :: n in r <==> n in notes && n.id != id
    ensures IsSubsequence(r, notes)
    ensures AllWellFormed(notes) ==> AllWellFormed(r)
    ensures forall n :: multiset(r)[n] == if n.id != id then multiset(notes)[n] else 0
  {
    var keep := (n: Note) => n.id != id;
    FilterCount(notes, keep);
    Filter(notes, keep)
  }

  /** `updateStudyProgress`'s list: the first note with that id is reviewed
      in place; nothing else changes, and an unknown id changes nothing. */
  function WithProgress(notes: seq<Note>, id: string, success: bool, now: int): (r: seq<Note>)
    ensures |r| == |notes|
    ensures FindIndex(notes, id).None? ==> r == notes
    ensures forall j :: 0 <= j < |notes| && FindIndex(notes, id) != Some(j) ==> r[j] == notes[j]
    ensures FindIndex(notes, id).Some? ==>
      var k := FindIndex(notes, id).value;
      r[k] == Review(notes[k], success, now)
    ensures AllWellFormed(notes) ==> AllWellFormed(r)
  {
    match FindIndex(notes, id)
    case None => notes
    case Some(k) => notes[k := Review(notes[k], success, now)]
  }

  /** An update followed by a lookup returns the new title, description and
      tags with the id, creation date and schedule of the note before. */
  lemma UpdateThenGet(notes: seq<Note>, id: string, title: string, description: string, tags: seq<string>)
    requires GetNote(notes, id).Some?
    ensures GetNote(WithUpdate(notes, id, title, description, tags), id).Some?
    ensures var after := GetNote(WithUpdate(notes, id, title, description, tags), id).value;
      after.title == title && after.description == description && after.tags == tags &&
      SameSchedule(after, GetNote(notes, id).value)
  {
    var r := WithUpdate(notes, id, title, description, tags);
    var k := FindIndex(notes, id).value;
    FindIndexAgrees(notes, r, id, k);
  }

  /** Two lists that agree before position `k` and both hold `id` at `k`
      find `id` at `k`. */
  lemma {:induction false} FindIndexAgrees(a: seq<Note>, b: seq<Note>, id: string, k: nat)
    requires k < |a| && k < |b| && a[k].id == id && b[k].id == id
    requires forall j :: 0 <= j < k ==> a[j].id != id && b[j].id == a[j].id
    ensures FindIndex(b, id) == Some(k)
  {
    if k > 0 {
      FindIndexAgrees(a[1..], b[1..], id, k - 1);
    }
  }

  /** After a delete the id is gone, and a second delete changes nothing. */
  lemma DeleteRemovesId(notes: seq<Note>, id: string)
    ensures GetNote(WithoutId(notes, id), id).None?
    ensures WithoutId(WithoutId(notes, id), id) == WithoutId(notes, id)
  {
    FilterIdempotent(notes, (n: Note) => n.id != id);
  }

  /** Reviewing a note in place changes no list position and no other note;
      a lookup afterwards finds the reviewed record. */
  lemma ProgressThenGet(notes: seq<Note>, id: string, success: bool, now: int)
    requires GetNote(notes, id).Some?
    ensures GetNote(WithProgress(notes, id, success, now), id) ==
      Some(Review(GetNote(notes, id).value, success, now))
  {
    var k := FindIndex(notes, id).value;
    FindIndexAgrees(notes, WithProgress(notes, id, success, now), id, k);
  }

  // ---------------------------------------------------------------------
  // Queries

  /** `getDueNotes` at time `now`: the notes whose next review has come. */
  function DueNotes(notes: seq<Note>, now: int): (r: seq<Note>)
    ensures forall n :: n in r <==> n in notes && n.nextReview <= now
    ensures IsSubsequence(r, notes)
    ensures forall n :: multiset(r)[n] == if n.nextReview <= now then multiset(notes)[n] else 0
  {
    var due := (n: Note) => n.nextReview <= now;
    FilterCount(notes, due);
    Filter(notes, due)
  }

  /** Asking twice at the same time gives the same answer, and asking again
      over the answer changes nothing. */
  lemma DueNotesStable(notes: seq<Note>, now: int)
    ensures DueNotes(DueNotes(notes, now), now) == DueNotes(notes, now)
  {
    FilterIdempotent(notes, (n: Note) => n.nextReview <= now);
  }

  /** A note matches a lower-cased search term when its lower-cased title,
      description or one of its lower-cased tags contains the term. */
  predicate Matches(n: Note, term: string)
  {
    Contains(Lower(n.title), term) || Contains(Lower(n.description), term) ||
    exists t | t in n.tags :: Contains(Lower(t), term)
  }

  /** `searchNotes(query)`: case-insensitive substring search over title,
      description and tags. */
  function SearchNotes(notes: seq<Note>, query: string): (r: seq<Note>)
    ensures forall n :: n in r <==> n in notes && Matches(n, Lower(query))
    ensures IsSubsequence(r, notes)
    ensures forall n :: multiset(r)[n] == if Matches(n, Lower(query)) then multiset(notes)[n] else 0
  {
    var term := Lower(query);
    var matching := (n: Note) => Matches(n, term);
    FilterCount(notes, matching);
    Filter(notes, matching)
  }

  /** The empty query matches every note. */
  lemma SearchEmptyQuery(notes: seq<Note>)
    ensures SearchNotes(notes, "") == notes
  {
    forall n | n in notes ensures Matches(n, Lower("")) {
      ContainsEmpty(Lower(n.title));
    }
    FilterAll(notes, (n: Note) => Matches(n, Lower("")));
  }

  /** The query's case does not matter. */
  lemma SearchIgnoresCase(notes: seq<Note>, query: string)
    ensures SearchNotes(notes, Lower(query)) == SearchNotes(notes, query)
  {
    LowerIdempotent(query);
  }

  /** Searching "java" finds a note tagged "JavaScript". */
  lemma SearchFindsTagExample(notes: seq<Note>, n: Note)
    requires n in notes && "JavaScript" in n.tags
    ensures n in SearchNotes(notes, "java")
  {
    assert Lower("java") == "java";
    assert Lower("JavaScript") == "javascript";
    assert OccursAt(Lower("JavaScript"), Lower("java"), 0);
  }

  /** The note carries every one of `tags`. */
  predicate HasAllTags(n: Note, tags: seq<string>)
  {
    forall t :: t in tags ==> t in n.tags
  }

  /** `filterByTags(tags)`: the notes carrying all of the given tags. */
  function FilterByTags(notes: seq<Note>, tags: seq<string>): (r: seq<Note>)
    ensures forall n :: n in r <==> n in notes && HasAllTags(n, tags)
    ensures IsSubsequence(r, notes)
    ensures forall n :: multiset(r)[n] == if HasAllTags(n, tags) then multiset(notes)[n] else 0
  {
    var tagged := (n: Note) => HasAllTags(n, tags);
    FilterCount(notes, tagged);
    Filter(notes, tagged)
  }

  /** Filtering by no tags keeps every note. */
  lemma FilterByNoTags(notes: seq<Note>)
    ensures FilterByTags(notes, []) == notes
  {
    FilterAll(notes, (n: Note) => HasAllTags(n, []));
  }

  /** `notes.flatMap(note => note.tags)`: every tag occurrence, in order. */
  function Flatten(notes: seq<Note>): seq<string>
  {
    if notes == [] then [] else Flatten(notes[..|notes| - 1]) + notes[|notes| - 1].tags
  }

  /** A tag occurs in the flattened list exactly when some note carries it. */
  lemma {:induction false} FlattenHas(notes: seq<Note>, t: string)
    ensures t in Flatten(notes) <==> exists i :: 0 <= i < |notes| && t in notes[i].tags
  {
    if notes != [] {
      var init := notes[..|notes| - 1];
      FlattenHas(init, t);
      if t in Flatten(notes) && t !in notes[|notes| - 1].tags {
        var i :| 0 <= i < |init| && t in init[i].tags;
        assert notes[i] == init[i];
      }
      if exists i :: 0 <= i < |notes| && t in notes[i].tags {
        var i :| 0 <= i < |notes| && t in notes[i].tags;
        if i < |notes| - 1 { assert init[i] == notes[i]; }
      }
    }
  }

  /** `getAllTags`: the tags carried by some note, sorted, without duplicates. */
  function AllTags(notes: seq<Note>): (r: seq<string>)
    ensures StrictlySorted(r)
    ensures forall t :: t in r <==> exists i :: 0 <= i < |notes| && t in notes[i].tags
  {
    var r := SortedDistinct(Flatten(notes));
    assert forall t :: t in r <==> exists i :: 0 <= i < |notes| && t in notes[i].tags by {
      forall t ensures t in r <==> exists i :: 0 <= i < |notes| && t in notes[i].tags {
        FlattenHas(notes, t);
      }
    }
    r
  }

  /** What `saveTags(tags)` stores: the saved and the new tags, sorted,
      without duplicates. Nothing saved before is lost. */
  function MergeTags(saved: seq<string>, tags: seq<string>): (r: seq<string>)
    ensures StrictlySorted(r)
    ensures forall t :: t in r <==> t in saved || t in tags
  {
    SortedDistinct(saved + tags)
  }

  /** Saving tags that are all registered already leaves a registry that
      is sorted and duplicate-free unchanged. */
  lemma MergeKnownTags(saved: seq<string>, tags: seq<string>)
    requires StrictlySorted(saved)
    requires forall t :: t in tags ==> t in saved
    ensures MergeTags(saved, tags) == saved
  {
    StrictlySortedUnique(MergeTags(saved, tags), saved);
  }

  /** Saving in two steps is saving once. */
  lemma MergeTwice(saved: seq<string>, a: seq<string>, b: seq<string>)
    ensures MergeTags(MergeTags(saved, a), b) == MergeTags(saved, a + b)
  {
    StrictlySortedUnique(MergeTags(MergeTags(saved, a), b), MergeTags(saved, a + b));
  }

  /** `getAllAvailableTags`: the saved tags together with every tag on a
      note, sorted, without duplicates. */
  function AllAvailableTags(saved: seq<string>, notes: seq<Note>): (r: seq<string>)
    ensures StrictlySorted(r)
    ensures forall t :: t in r <==> t in saved || exists i :: 0 <= i < |notes| && t in notes[i].tags
  {
    SortedDistinct(saved + AllTags(notes))
  }

  /** `formatRelativeTime(date)` at time `now`. The day count is rounded up
      from `date - now`, which is the negated count of whole days late that
      the due/overdue classification uses. */
  function FormatRelativeTime(date: int, now: int): (r: string)
    ensures DaysLate(date, now) == 1 ==> r == "1 day overdue"
    ensures DaysLate(date, now) > 1 ==> r == NatToString(DaysLate(date, now)) + " days overdue"
    ensures DaysLate(date, now) == 0 ==> r == "Due today"
    ensures DaysLate(date, now) == -1 ==> r == "Due tomorrow"
    ensures DaysLate(date, now) < -1 ==> r == "Due in " + NatToString(-DaysLate(date, now)) + " days"
  {
    CeilIsNegatedFloor(date - now);
    var diffDays := CeilDays(date - now);
    if diffDays < 0 then
      var overdueDays := -diffDays;
      NatToString(overdueDays) + " day" + (if overdueDays == 1 then "" else "s") + " overdue"
    else if diffDays == 0 then "Due today"
    else if diffDays == 1 then "Due tomorrow"
    else "Due in " + NatToString(diffDays) + " days"
  }

  /** The overdue label carries the number of whole days late, which reads
      back exactly. */
  lemma OverdueLabelDays(date: int, now: int)
    requires DaysLate(date, now) > 1
    ensures var text := FormatRelativeTime(date, now);
      ParseNat(text[..|text| - |" days overdue"|]) == DaysLate(date, now)
  {
    var text := FormatRelativeTime(date, now);
    var digits := NatToString(DaysLate(date, now));
    assert text[..|text| - |" days overdue"|] == digits;
    ParseNatToString(DaysLate(date, now));
  }

  // ---------------------------------------------------------------------
  // Statistics

  datatype NoteStats = NoteStats(total: nat, due: nat, overdue: nat, reviewed: nat, averageSuccessRate: nat)

  /** Notes late by zero whole days. */
  function DueTodayCount(notes: seq<Note>, now: int): nat
  {
    |Filter(notes, (n: Note) => DaysLate(n.nextReview, now) == 0)|
  }

  /** Notes late by at least one whole day. */
  function OverdueCount(notes: seq<Note>, now: int): nat
  {
    |Filter(notes, (n: Note) => DaysLate(n.nextReview, now) > 0)|
  }

  /** Notes reviewed at least once. */
  function ReviewedCount(notes: seq<Note>): nat
  {
    |Filter(notes, (n: Note) => n.reviewCount > 0)|
  }

  /** The sum of `reviewCount` over the reviewed notes. */
  function TotalReviews(notes: seq<Note>): nat
  {
    if notes == [] then 0
    else
      var n := notes[|notes| - 1];
      TotalReviews(notes[..|notes| - 1]) + (if n.reviewCount > 0 then n.reviewCount else 0)
  }

  /** The sum of `successCount` over the reviewed notes. */
  function TotalSuccesses(notes: seq<Note>): nat
  {
    if notes == [] then 0
    else
      var n := notes[|notes| - 1];
      TotalSuccesses(notes[..|notes| - 1]) + (if n.reviewCount > 0 then n.successCount else 0)
  }

  /** `Math.round(part / whole * 100)` on exact rationals: the integer
      nearest to `100 * part / whole`, halves rounded up. */
  function RoundedPercent(part: nat, whole: nat): (r: nat)
    requires whole > 0
    ensures r * (2 * whole) <= 200 * part + whole < (r + 1) * (2 * whole)
  {
    (200 * part + whole) / (2 * whole)
  }

  /** A rounded share of a whole is at most 100 percent. */
  lemma PercentAtMost100(part: nat, whole: nat)
    requires 0 < whole && part <= whole
    ensures RoundedPercent(part, whole) <= 100
  {
    var r := RoundedPercent(part, whole);
    var w := 2 * whole;
    assert r * w <= 200 * part + whole;
    assert 200 * part + whole < 101 * w;
    if r > 100 {
      MulAtLeast(r, 101, w);
      assert false;
    }
  }

  lemma MulAtLeast(a: int, b: int, c: nat)
    requires a >= b
    ensures a * c >= b * c
  {
    assert a * c == b * c + (a - b) * c;
  }

  /** The success rate of well-formed notes is a percentage: no note has
      more successes than reviews. */
  lemma {:induction false} SuccessRateAtMost100(notes: seq<Note>)
    requires AllWellFormed(notes)
    ensures TotalSuccesses(notes) <= TotalReviews(notes)
    ensures TotalReviews(notes) > 0 ==> RoundedPercent(TotalSuccesses(notes), TotalReviews(notes)) <= 100
  {
    if notes != [] {
      SuccessRateAtMost100(notes[..|notes| - 1]);
      assert WellFormed(notes[|notes| - 1]);
    }
    if TotalReviews(notes) > 0 {
      PercentAtMost100(TotalSuccesses(notes), TotalReviews(notes));
    }
  }

  /** Due and overdue split the due notes: a note is counted in one of them
      exactly when `getDueNotes` returns it. */
  lemma {:induction false} DueSplit(notes: seq<Note>, now: int)
    ensures DueTodayCount(notes, now) + OverdueCount(notes, now) == |DueNotes(notes, now)|
  {
    if notes != [] {
      DueSplit(notes[1..], now);
    }
  }

  /** `getStats` at time `now`, one pass over the notes. */
  method GetStats(notes: seq<Note>, now: int) returns (stats: NoteStats)
    ensures stats.total == |notes|
    ensures stats.due == DueTodayCount(notes, now)
    ensures stats.overdue == OverdueCount(notes, now)
    ensures stats.reviewed == ReviewedCount(notes)
    ensures TotalReviews(notes) == 0 ==> stats.averageSuccessRate == 0
    ensures TotalReviews(notes) > 0 ==>
      stats.averageSuccessRate == RoundedPercent(TotalSuccesses(notes), TotalReviews(notes))
  {
    var due, overdue, reviewed := 0, 0, 0;
    var totalReviews, totalSuccesses := 0, 0;
    var i := 0;
    while i < |notes|
      invariant 0 <= i <= |notes|
      invariant due == DueTodayCount(notes[..i], now)
      invariant overdue == OverdueCount(notes[..i], now)
      invariant reviewed == ReviewedCount(notes[..i])
      invariant totalReviews == TotalReviews(notes[..i])
      invariant totalSuccesses == TotalSuccesses(notes[..i])
    {
      var note := notes[i];
      assert notes[..i + 1] == notes[..i] + [note];
      assert notes[..i + 1][..i] == notes[..i];
      FilterAppend(notes[..i], [note], (n: Note) => DaysLate(n.nextReview, now) == 0);
      FilterAppend(notes[..i], [note], (n: Note) => DaysLate(n.nextReview, now) > 0);
      FilterAppend(notes[..i], [note], (n: Note) => n.reviewCount > 0);
      var daysDiff := DaysLate(note.nextReview, now);
      if daysDiff >= 0 {
        if daysDiff == 0 {
          due := due + 1;
        } else {
          overdue := overdue + 1;
        }
      }
      if note.reviewCount > 0 {
        reviewed := reviewed + 1;
        totalReviews := totalReviews + note.reviewCount;
        totalSuccesses := totalSuccesses + note.successCount;
      }
      i := i + 1;
    }
    assert notes[..i] == notes;
    var rate := 0;
    if totalReviews > 0 {
      rate := RoundedPercent(totalSuccesses, totalReviews);
    }
    stats := NoteStats(|notes|, due, overdue, reviewed, rate);
  }

  // ---------------------------------------------------------------------
  // The store

  /** The store's two collections. Its invariant: every note is well formed
      and the tag registry is sorted and duplicate-free. */
  class NoteStore {
    var notes: seq<Note>
    var savedTags: seq<string>

    ghost predicate Valid()
      reads this
    {
      AllWellFormed(notes) && StrictlySorted(savedTags)
    }

    /** A store over empty collections. */
    constructor ()
      ensures Valid() && notes == [] && savedTags == []
    {
      notes := [];
      savedTags := [];
    }

    /** `saveTags(tags)`: merges `tags` into the registry and returns it. */
    method SaveTags(tags: seq<string>) returns (r: seq<string>)
      requires Valid()
      modifies this
      ensures Valid() && notes == old(notes)
      ensures savedTags == MergeTags(old(savedTags), tags) && r == savedTags
    {
      savedTags := MergeTags(savedTags, tags);
      r := savedTags;
    }

    /** `autoSaveTags(tags)`: `saveTags` for a non-empty list, else nothing. */
    method AutoSaveTags(tags: seq<string>)
      requires Valid()
      modifies this
      ensures Valid() && notes == old(notes)
      ensures |tags| == 0 ==> savedTags == old(savedTags)
      ensures |tags| > 0 ==> savedTags == MergeTags(old(savedTags), tags)
    {
      if |tags| > 0 {
        var _ := SaveTags(tags);
      }
    }

    /** `saveNote(note)`: appends the note. */
    method SaveNote(note: Note)
      requires Valid() && WellFormed(note)
      modifies this
      ensures Valid() && savedTags == old(savedTags)
      ensures notes == old(notes) + [note]
    {
      notes := notes + [note];
    }

    /** `createNote`: builds a fresh note with the given id at time `now`,
      registers its tags and appends it. */
    method CreateNote(id: string, title: string, description: string, tags: Option<seq<string>>, now: int)
      returns (note: Note)
      requires Valid()
      modifies this
      ensures Valid()
      ensures note == NewNote(id, title, description, tags, now)
      ensures notes == old(notes) + [note]
      ensures |note.tags| == 0 ==> savedTags == old(savedTags)
      ensures |note.tags| > 0 ==> savedTags == MergeTags(old(savedTags), note.tags)
    {
      note := NewNote(id, title, description, tags, now);
      AutoSaveTags(note.tags);
      SaveNote(note);
    }

    /** `updateNote`: edits the first note with that id and returns it, or
      returns `None` and changes nothing when there is none. */
    method UpdateNote(id: string, title: string, description: string, tags: Option<seq<string>>)
      returns (r: Option<Note>)
      requires Valid()
      modifies this
      ensures Valid()
      ensures FindIndex(old(notes), id).None? ==>
        r == None && notes == old(notes) && savedTags == old(savedTags)
      ensures FindIndex(old(notes), id).Some? ==>
        var k := FindIndex(old(notes), id).value;
        var newTags := if tags.Some? then tags.value else [];
        notes == WithUpdate(old(notes), id, title, description, newTags) &&
        r == Some(notes[k]) &&
        savedTags == (if |newTags| > 0 then MergeTags(old(savedTags), newTags) else old(savedTags))
    {
      var found := FindIndex(notes, id);
      if found.None? {
        return None;
      }
      var k := found.value;
      var newTags := if tags.Some? then tags.value else [];
      var updated := notes[k].(title := title, description := description, tags := newTags);
      AutoSaveTags(updated.tags);
      notes := notes[k := updated];
      r := Some(updated);
    }

    /** `deleteNote`: removes every note with that id. */
    method DeleteNote(id: string)
      requires Valid()
      modifies this
      ensures Valid() && savedTags == old(savedTags)
      ensures notes == WithoutId(old(notes), id)
    {
      notes := WithoutId(notes, id);
    }

    /** `updateStudyProgress`: records one review outcome at time `now` on the
      first note with that id; an unknown id changes nothing. */
    method UpdateStudyProgress(id: string, success: bool, now: int)
      requires Valid()
      modifies this
      ensures Valid() && savedTags == old(savedTags)
      ensures notes == WithProgress(old(notes), id, success, now)
    {
      var found := FindIndex(notes, id);
      if found.None? {
        return;
      }
      var k := found.value;
      var note := notes[k];
      var index := if success then
        (if note.intervalIndex + 1 < |INTERVALS| - 1 then note.intervalIndex + 1 else |INTERVALS| - 1)
      else 0;
      note := note.(lastReviewed := Some(now), reviewCount := note.reviewCount + 1);
      if success {
        note := note.(successCount := note.successCount + 1);
      }
      note := note.(intervalIndex := index);
      note := note.(nextReview := NextReview(now, note.intervalIndex));
      notes := notes[k := note];
    }

    /** `addTag(tag)`: registers the trimmed tag; `None` (null or not a
      string) and all-space input change nothing. Returns the registry. */
    method AddTag(tag: Option<string>) returns (r: seq<string>)
      requires Valid()
      modifies this
      ensures Valid() && notes == old(notes) && r == savedTags
      ensures tag.None? || AllSpace(tag.value) ==> savedTags == old(savedTags)
      ensures tag.Some? && !AllSpace(tag.value) ==>
        savedTags == MergeTags(old(savedTags), [Trim(tag.value)])
      ensures tag.Some? && Trim(tag.value) in old(savedTags) ==> savedTags == old(savedTags)
    {
      if tag.None? || tag.value == "" {
        return savedTags;
      }
      var trimmed := Trim(tag.value);
      if trimmed == "" {
        return savedTags;
      }
      if trimmed !in savedTags {
        r := SaveTags([trimmed]);
      } else {
        MergeKnownTags(savedTags, [trimmed]);
        r := savedTags;
      }
    }

    /** `removeTag(tag)`: drops that tag from the registry, keeping the
      order of the others. Returns the registry. */
    method RemoveTag(tag: string) returns (r: seq<string>)
      requires Valid()
      modifies this
      ensures Valid() && notes == old(notes) && r == savedTags
      ensures forall t :: t in savedTags <==> t in old(savedTags) && t != tag
      ensures IsSubsequence(savedTags, old(savedTags))
    {
      FilterKeepsSorted(savedTags, (t: string) => t != tag);
      savedTags := Filter(savedTags, (t: string) => t != tag);
      r := savedTags;
    }
  }

  /** Removing elements from a strictly sorted list keeps it strictly sorted. */
  lemma {:induction false} FilterKeepsSorted(s: seq<string>, p: string -> bool)
    requires StrictlySorted(s)
    ensures StrictlySorted(Filter(s, p))
  {
    if s != [] {
      FilterKeepsSorted(s[1..], p);
      var rest := Filter(s[1..], p);
      if p(s[0]) {
        var r := [s[0]] + rest;
        forall i, j | 0 <= i < j < |r| ensures Less(r[i], r[j]) {
          if i == 0 {
            assert r[j] in s[1..];
            var m :| 0 <= m < |s[1..]| && s[1..][m] == r[j];
            assert s[m + 1] == r[j];
          } else {
            assert r[i] == rest[i - 1] && r[j] == rest[j - 1];
          }
        }
      }
    }
  }
}
