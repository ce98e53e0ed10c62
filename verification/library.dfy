/** The note library view of `src/components/Library.jsx`: the three-way
    status badge, the tag selection, and the filtered and sorted list. The
    list is built in an array, as the component does: with no search and no
    tag filter applied it is the `notes` prop array itself, and the sort
    reorders that array in place. */
module Library {
  import opened Util
  import opened Text
  import opened Notes
  import opened NoteService

  datatype Status = Overdue | Due | Upcoming

  /** `getNoteStatus(note)` at time `now`, by the whole days `now` lies past
      the note's next review, rounded down. */
  function NoteStatus(n: Note, now: int): (r: Status)
    ensures r == Overdue <==> n.nextReview + DAY_MS <= now
    ensures r == Due <==> n.nextReview <= now < n.nextReview + DAY_MS
    ensures r == Upcoming <==> now < n.nextReview
  {
    var diffDays := DaysLate(n.nextReview, now);
    if diffDays > 0 then Overdue
    else if diffDays == 0 then Due
    else Upcoming
  }

  /** The badge agrees with the relative-date label: "Due today" exactly for
      due notes, an overdue label exactly for overdue notes. */
  lemma StatusMatchesLabel(n: Note, now: int)
    ensures NoteStatus(n, now) == Due <==> FormatRelativeTime(n.nextReview, now) == "Due today"
    ensures NoteStatus(n, now) == Overdue <==>
      exists k: nat :: FormatRelativeTime(n.nextReview, now) == NatToString(k) + " days overdue" ||
                       FormatRelativeTime(n.nextReview, now) == NatToString(k) + " day overdue"
  {
    var d := DaysLate(n.nextReview, now);
    var text := FormatRelativeTime(n.nextReview, now);
    if d == 1 {
      assert text == NatToString(1) + " day overdue";
    } else if d > 1 {
      assert text == NatToString(d) + " days overdue";
    } else {
      forall k: nat ensures text != NatToString(k) + " days overdue" && text != NatToString(k) + " day overdue" {
        assert text[0] == 'D';
        assert (NatToString(k) + " days overdue")[0] == NatToString(k)[0];
        assert (NatToString(k) + " day overdue")[0] == NatToString(k)[0];
      }
    }
  }

  /** The badge agrees with the statistics: `getStats` counts as due (as
      overdue) exactly the notes the badge shows as due (as overdue). */
  lemma StatusAgreesWithStats(notes: seq<Note>, now: int)
    ensures |Filter(notes, (n: Note) => NoteStatus(n, now) == Due)| == DueTodayCount(notes, now)
    ensures |Filter(notes, (n: Note) => NoteStatus(n, now) == Overdue)| == OverdueCount(notes, now)
  {
    FilterExt(notes, (n: Note) => NoteStatus(n, now) == Due, (n: Note) => DaysLate(n.nextReview, now) == 0);
    FilterExt(notes, (n: Note) => NoteStatus(n, now) == Overdue, (n: Note) => DaysLate(n.nextReview, now) > 0);
  }

  /** The notes the list shows before sorting: the store's search results
      when the trimmed query is non-empty, else the `notes` prop; then only
      the notes carrying every selected tag. */
  function Selected(storeNotes: seq<Note>, props: seq<Note>, query: string, selectedTags: seq<string>): (r: seq<Note>)
    ensures forall n :: n in r <==>
      (if AllSpace(query) then n in props else n in storeNotes && Matches(n, Lower(query))) &&
      HasAllTags(n, selectedTags)
    ensures AllSpace(query) && selectedTags == [] ==> r == props
    ensures IsSubsequence(r, if AllSpace(query) then props else storeNotes)
    ensures forall n ::
      multiset(r)[n] ==
        if (AllSpace(query) || Matches(n, Lower(query))) && HasAllTags(n, selectedTags)
        then multiset(if AllSpace(query) then props else storeNotes)[n]
        else 0
  {
    var searched := if Trim(query) != [] then SearchNotes(storeNotes, query) else props;
    var base := if AllSpace(query) then props else storeNotes;
    assert IsSubsequence(searched, base) by {
      if AllSpace(query) {
        SubsequenceRefl(props);
      }
    }
    if |selectedTags| > 0 then
      var r := FilterByTags(searched, selectedTags);
      SubsequenceTrans(r, searched, base);
      r
    else
      searched
  }

  /** Only the set of selected tags matters to the tag filter, not their
      order or repetitions. */
  lemma FilterByTagsSetOnly(notes: seq<Note>, a: seq<string>, b: seq<string>)
    requires forall t :: t in a <==> t in b
    ensures FilterByTags(notes, a) == FilterByTags(notes, b)
  {
    FilterExt(notes, (n: Note) => HasAllTags(n, a), (n: Note) => HasAllTags(n, b));
  }

  /** `handleTagToggle(t)`: deselects `t` if it is selected, else appends it. */
  function Toggled(selection: seq<string>, t: string): (r: seq<string>)
    ensures t in r <==> t !in selection
    ensures forall x :: x != t ==> (x in r <==> x in selection)
    ensures t !in selection ==> r == selection + [t]
    ensures t in selection ==> IsSubsequence(r, selection)
    ensures forall x :: x != t ==> multiset(r)[x] == multiset(selection)[x]
  {
    if t in selection then
      var keep := (x: string) => x != t;
      FilterCount(selection, keep);
      Filter(selection, keep)
    else
      selection + [t]
  }

  /** Toggling a tag twice restores the selection exactly when the tag was
      not selected, and restores its set of tags in any case, so the list
      shown is the same again. */
  lemma ToggleTwice(selection: seq<string>, t: string, notes: seq<Note>)
    ensures t !in selection ==> Toggled(Toggled(selection, t), t) == selection
    ensures forall x :: x in Toggled(Toggled(selection, t), t) <==> x in selection
    ensures FilterByTags(notes, Toggled(Toggled(selection, t), t)) == FilterByTags(notes, selection)
  {
    if t !in selection {
      var keep := (x: string) => x != t;
      FilterAppend(selection, [t], keep);
      FilterAll(selection, keep);
    }
    FilterByTagsSetOnly(notes, Toggled(Toggled(selection, t), t), selection);
  }

  /** A selection without duplicates stays without duplicates. */
  lemma ToggleNoDuplicates(selection: seq<string>, t: string)
    requires NoDuplicates(selection)
    ensures NoDuplicates(Toggled(selection, t))
  {
    if t in selection {
      FilterNoDuplicates(selection, (x: string) => x != t);
    }
  }

  /** The sort modes with a numeric comparator; any other value leaves the
      order alone. */
  datatype SortMode = Created | DueDate | Reviews | Unsorted

  /** The ascending sort key each comparator amounts to: newest first,
      earliest next review first, most reviewed first. */
  function Key(mode: SortMode, n: Note): int
  {
    match mode
    case Created => -n.createdAt
    case DueDate => n.nextReview
    case Reviews => -(n.reviewCount as int)
    case Unsorted => 0
  }

  function KeyOf(mode: SortMode): Note -> int
  {
    (n: Note) => Key(mode, n)
  }

  /** The list in the order the mode asks for; the sort is stable. */
  function Arrange(s: seq<Note>, mode: SortMode): (r: seq<Note>)
    ensures multiset(r) == multiset(s)
    ensures mode == Unsorted ==> r == s
  {
    if mode == Unsorted then s else SortByKey(s, KeyOf(mode))
  }

  /** Each mode's order, in the note's own fields. */
  lemma ArrangeOrder(s: seq<Note>, mode: SortMode)
    ensures forall i, j :: 0 <= i < j < |Arrange(s, mode)| ==>
      var a, b := Arrange(s, mode)[i], Arrange(s, mode)[j];
      (mode == Created ==> a.createdAt >= b.createdAt) &&
      (mode == DueDate ==> a.nextReview <= b.nextReview) &&
      (mode == Reviews ==> a.reviewCount >= b.reviewCount)
  {
    var r := Arrange(s, mode);
    if mode != Unsorted {
      assert SortedBy(r, KeyOf(mode));
    }
  }

  /** Stable insertion sort of the array by ascending key, in place: the
      model of `filtered.sort(comparator)`. */
  method SortInPlace(a: array<Note>, key: Note -> int)
    modifies a
    ensures a[..] == SortByKey(old(a[..]), key)
  {
    ghost var orig := a[..];
    var i := 0;
    while i < a.Length
      invariant 0 <= i <= a.Length
      invariant a[..i] == SortByKey(orig[..i], key)
      invariant a[i..] == orig[i..]
    {
      assert a[i] == orig[i] by { assert a[i..][0] == orig[i..][0]; }
      assert a[i + 1..] == orig[i + 1..] by { assert a[i + 1..] == a[i..][1..]; }
      InsertLast(a, i, key);
      SortByKeyStep(orig, i, key);
      i := i + 1;
    }
    assert a[..] == a[..a.Length] && orig == orig[..a.Length];
  }

  /** Sorting one more element is inserting it into the sorted rest. */
  lemma SortByKeyStep(s: seq<Note>, i: nat, key: Note -> int)
    requires i < |s|
    ensures SortByKey(s[..i + 1], key) == InsertByKey(SortByKey(s[..i], key), s[i], key)
  {
    assert s[..i + 1][..i] == s[..i];
  }

  /** One pass of the insertion sort: `a[i]` moves left past the larger
      keys of the sorted `a[..i]`. */
  method InsertLast(a: array<Note>, i: nat, key: Note -> int)
    requires i < a.Length && SortedBy(a[..i], key)
    modifies a
    ensures a[..i + 1] == InsertByKey(old(a[..i]), old(a[i]), key)
    ensures a[i + 1..] == old(a[i + 1..])
  {
    ghost var prefix := a[..i];
    var x := a[i];
    var j := i;
    while j > 0 && key(a[j - 1]) > key(x)
      invariant 0 <= j <= i
      invariant forall k :: 0 <= k < j ==> a[k] == prefix[k]
      invariant forall k :: j < k <= i ==> a[k] == prefix[k - 1]
      invariant a[i + 1..] == old(a[i + 1..])
      invariant forall k :: j <= k < i ==> key(prefix[k]) > key(x)
      decreases j
    {
      a[j] := a[j - 1];
      j := j - 1;
    }
    a[j] := x;
    ShiftedIsInserted(prefix, x, key, j, a[..]);
  }

  /** The array after the shifting loop holds the sorted prefix with `x`
      inserted at its place. */
  lemma ShiftedIsInserted(prefix: seq<Note>, x: Note, key: Note -> int, j: nat, s: seq<Note>)
    requires SortedBy(prefix, key) && j <= |prefix| < |s|
    requires j == 0 || key(prefix[j - 1]) <= key(x)
    requires forall k :: j <= k < |prefix| ==> key(prefix[k]) > key(x)
    requires forall k :: 0 <= k < j ==> s[k] == prefix[k]
    requires s[j] == x
    requires forall k :: j < k <= |prefix| ==> s[k] == prefix[k - 1]
    ensures s[..|prefix| + 1] == InsertByKey(prefix, x, key)
  {
    var inserted := prefix[..j] + [x] + prefix[j..];
    assert forall k :: 0 <= k <= |prefix| ==> s[k] == inserted[k];
    InsertByKeyAt(prefix, x, key, j);
  }

  /** A new array holding `s`. */
  method NewArray(s: seq<Note>) returns (a: array<Note>)
    ensures fresh(a) && a[..] == s
  {
    a := new Note[|s|](k requires 0 <= k < |s| => s[k]);
  }

  /** The view's own state. */
  class LibraryView {
    var searchQuery: string
    var selectedTags: seq<string>
    var sortBy: SortMode

    constructor ()
      ensures searchQuery == [] && selectedTags == [] && sortBy == Created
    {
      searchQuery := "";
      selectedTags := [];
      sortBy := Created;
    }

    method HandleTagToggle(t: string)
      modifies this
      ensures selectedTags == Toggled(old(selectedTags), t)
      ensures searchQuery == old(searchQuery) && sortBy == old(sortBy)
    {
      if t in selectedTags {
        selectedTags := Filter(selectedTags, (x: string) => x != t);
      } else {
        selectedTags := selectedTags + [t];
      }
    }

    /** `filteredNotes`: the selected notes in the chosen order. With neither
      a search nor a tag filter in force the result is the `notes` prop
      array itself, sorted in place; otherwise it is a new array and the
      prop is untouched. */
    method FilteredNotes(props: array<Note>, storeNotes: seq<Note>) returns (result: array<Note>)
      modifies props
      ensures result[..] == Arrange(Selected(storeNotes, old(props[..]), searchQuery, selectedTags), sortBy)
      ensures AllSpace(searchQuery) && selectedTags == [] ==> result == props
      ensures !(AllSpace(searchQuery) && selectedTags == []) ==>
        fresh(result) && props[..] == old(props[..])
    {
      var chosen := Selected(storeNotes, props[..], searchQuery, selectedTags);
      var filtered := props;
      if Trim(searchQuery) != [] || |selectedTags| > 0 {
        filtered := NewArray(chosen);
      }
      if sortBy != Unsorted {
        SortInPlace(filtered, KeyOf(sortBy));
      }
      result := filtered;
    }
  }
}
