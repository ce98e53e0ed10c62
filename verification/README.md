# Active-Recallera in Dafny

Active-Recallera is a spaced-repetition flash-card application. A note has a
question (title), an answer (description), tags, and a schedule. The
schedule is a fixed Leitner-style ladder of review intervals of 1, 3, 7, 14
and 30 days. A success moves a note one rung up, stopping at the top. A
failure sends it back to the first rung. This project models the
application's logic and proves properties of it:

- `notes.dfy` (module `Notes`): the note record and the ladder. Day counts
  are rounded down and up. `Review` is one review outcome, and `ReviewAll`
  is a history of them.
- `note_service.dfy` (module `NoteService`): the note store of
  `src/services/noteService.js`.
  - The class `NoteStore` holds the note list and the saved tag registry.
    Its methods rewrite them: create, update, delete, record a review, save,
    add and remove tags.
  - Each rewrite is specified by a function of the old list (`WithUpdate`,
    `WithoutId`, `WithProgress`, `MergeTags`), and lemmas relate them to
    `GetNote`.
  - The queries are functions: due notes, search, tag filter, tag lists,
    the relative-date label.
  - `GetStats` is the statistics loop, proved against counting functions.
- `study_session.dfy` (module `StudySession`): the study-session component.
  - It is a state machine over `(currentIndex, isFlipped, studiedNotes)`.
  - Step functions specify the handlers of the class `Session`.
  - Lemmas cover any sequence of user events: the invariant holds, outcomes
    come only from answers, and an empty batch never reports anything.
- `note_modal.dfy` (module `NoteModal`): the note form. It covers the
  submit guard and the tag list's add and remove handlers. The class
  `NoteForm` holds the form state.
- `library.dfy` (module `Library`): the library view.
  - It covers the status badge, the tag selection toggle, and the filtered
    list.
  - The list is sorted in place by a stable insertion sort on an `array`,
    proved equal to a stable sort function.
  - With no search and no tag filter, the sort reorders the `notes` prop's
    own array, as `Array.prototype.sort` does.
- `stats.dfy` (module `Stats`): the statistics page.
  - It covers the histogram of notes per rung and the tag frequency table
    with its top ten, both counting loops proved against functions.
  - It also covers the ten most recently reviewed notes.
- `util.dfy` and `text.dfy` (modules `Util`, `Text`): the JavaScript
  primitives the application relies on.
  - `filter` and a stable sort by an integer key.
  - ASCII `trim` and `toLowerCase`, and `includes` on strings.
  - The default string order of `sort()`, `[...new Set(xs)].sort()`, and
    the decimal rendering of a number.

Modelling choices:

- Time is an integer number of milliseconds. A day is 86 400 000 ms. "Now"
  is a parameter wherever the source reads the clock.
- The note id, which the source takes from `Date.now()`, is a parameter of
  `CreateNote`.
- Integers are unbounded. No counter in the source can come near 2^53.
- `Math.round` of the success rate is computed exactly on rationals, halves
  rounded up.

The model follows the code in these places, where a reader might expect
otherwise:

- `createNote` does not reject an empty title or description. The form's
  submit guard does.
- `handleFlip` toggles the card: a second flip hides the answer again.
- The answer buttons are shown only after a flip, but `handleResponse`
  itself does not check `isFlipped`.
- After the last note there is no separate finished state. `onFinish` is
  called, and the index stays on the last note. The "Study Session
  Complete" branch is therefore never rendered for a valid state.
  `ViewShowsCard` proves this.
- `updateNote` on an unknown id returns `null` and changes nothing.

## Model

| member | source | states |
|---|---|---|
| `Notes.FloorDays` | src/services/noteService.js:151 | `Math.floor(ms / DAY_MS)` is the unique `d` with `d*DAY_MS <= ms < (d+1)*DAY_MS` |
| `Notes.CeilDays` | src/services/noteService.js:266 | `Math.ceil(ms / DAY_MS)` is the unique `d` with `(d-1)*DAY_MS < ms <= d*DAY_MS` |
| `Notes.CeilIsNegatedFloor` | src/services/noteService.js:266 | the label's rounded-up day count is the negated rounded-down count of days late |
| `Notes.DaysLate` | src/services/noteService.js:149-159 | whole days late is >= 0 iff the review date has come, 0 iff within the first day, > 0 iff a full day has passed |
| `Notes.NextReview` | src/services/noteService.js:126-131 | the next review lies `INTERVALS[i]` days after now: between 1 and 30 days, exactly 1 day on the first rung |
| `Notes.NextReviewMonotone` | src/services/noteService.js:2 | a higher rung never schedules earlier |
| `Notes.Review` | src/services/noteService.js:104-119 | one outcome: index on the ladder, next review `INTERVALS[index]` days after now, `lastReviewed` is now, identity and content untouched, well-formedness kept |
| `Notes.ReviewAllCounts` | src/services/noteService.js:107-111 | after any history every review and every success is counted and `successCount <= reviewCount` still holds |
| `Notes.ReviewAllIndexBound` | src/services/noteService.js:113-116 | after at least one review the index is on the ladder, whatever was stored |
| `Notes.SuccessStreak` | src/services/noteService.js:110-113 | k successes climb k rungs, saturating at the top, never going down |
| `Notes.FailureResets` | src/services/noteService.js:114-119 | a history ending in failure leaves the note on the first rung, due one day after that failure |
| `Text.Trim` | src/components/NoteModal.jsx:19 | the trimmed text is empty iff the input is all spaces and otherwise neither starts nor ends with a space |
| `Text.TrimPadded` | src/components/NoteModal.jsx:19 | trimming removes exactly the surrounding spaces: padded text trims back to the text |
| `Text.TrimIdempotent` | src/services/noteService.js:226 | trimming twice is trimming once |
| `Text.Lower` | src/services/noteService.js:178 | lower-casing keeps the length and maps each character |
| `Text.LowerIdempotent` | src/services/noteService.js:181-183 | lower-casing a lower-cased text changes nothing |
| `Text.SortedDistinct` | src/services/noteService.js:200 | `[...new Set(xs)].sort()` is strictly sorted and holds exactly the elements of `xs` |
| `Text.StrictlySortedUnique` | src/services/noteService.js:206 | two strictly sorted lists with the same elements are equal, so a sorted set has one representation |
| `Text.ParseNatToString` | src/services/noteService.js:270 | the decimal text of a day count reads back as that count |
| `NoteService.FindIndex` | src/services/noteService.js:40-42 | the first position holding the id, or none exactly when no note has it |
| `NoteService.GetNote` | src/services/noteService.js:68-71 | the first note of the list with that id (no earlier note has it), or none exactly when no note has it |
| `NoteService.NewNote` | src/services/noteService.js:17-28 | the created record: given fields, tags default to empty, never reviewed, first rung, due one day after creation, well formed |
| `NoteService.WithUpdate` | src/services/noteService.js:44-54 | the first note with the id gets the new title, description and tags, keeping id, creation date and schedule; every other position unchanged; unknown id leaves the list |
| `NoteService.WithoutId` | src/services/noteService.js:61-65 | exactly the notes with another id remain, in order, each as often as in the list |
| `NoteService.WithProgress` | src/services/noteService.js:98-123 | the first note with the id is replaced by its reviewed record, every other position unchanged; unknown id leaves the list |
| `NoteService.UpdateThenGet` | src/services/noteService.js:38-58 | after an update a lookup returns the new content with the old schedule |
| `NoteService.DeleteRemovesId` | src/services/noteService.js:61-65 | after a delete the id is not found, and deleting again changes nothing |
| `NoteService.ProgressThenGet` | src/services/noteService.js:98-123 | after recording an outcome a lookup returns the reviewed record |
| `NoteService.DueNotes` | src/services/noteService.js:87-95 | exactly the notes whose next review is not after now, in list order, each as often as in the list |
| `NoteService.DueNotesStable` | src/services/noteService.js:91-94 | filtering the due notes again changes nothing |
| `NoteService.SearchNotes` | src/services/noteService.js:176-185 | exactly the notes whose lower-cased title, description or some tag contains the lower-cased query, in order, each as often as in the list |
| `NoteService.SearchEmptyQuery` | src/services/noteService.js:180-184 | the empty query returns every note |
| `NoteService.SearchIgnoresCase` | src/services/noteService.js:178 | a query and its lower-cased form find the same notes |
| `NoteService.SearchFindsTagExample` | src/services/noteService.js:183 | "java" finds a note tagged "JavaScript" |
| `NoteService.FilterByTags` | src/services/noteService.js:188-194 | exactly the notes carrying every given tag, in order, each as often as in the list |
| `NoteService.FilterByNoTags` | src/services/noteService.js:192 | no tags keeps every note |
| `NoteService.FlattenHas` | src/services/noteService.js:199 | a tag is in the flattened list iff some note carries it |
| `NoteService.AllTags` | src/services/noteService.js:197-201 | sorted, duplicate-free, exactly the tags carried by some note |
| `NoteService.MergeTags` | src/services/noteService.js:206 | the registry after saving is sorted, duplicate-free, and holds exactly the old and the new tags |
| `NoteService.MergeKnownTags` | src/services/noteService.js:229-233 | saving tags already registered leaves a sorted registry unchanged |
| `NoteService.MergeTwice` | src/services/noteService.js:204-209 | saving in two steps is saving the concatenation once |
| `NoteService.AllAvailableTags` | src/services/noteService.js:245-249 | sorted, duplicate-free, exactly the saved tags and the tags on notes |
| `NoteService.FormatRelativeTime` | src/services/noteService.js:262-278 | the label for each number of whole days late: "1 day overdue", "N days overdue", "Due today", "Due tomorrow", "Due in N days" |
| `NoteService.OverdueLabelDays` | src/services/noteService.js:268-270 | the overdue label carries the exact number of days late |
| `NoteService.RoundedPercent` | src/services/noteService.js:169 | the integer nearest to `100*part/whole`, halves up |
| `NoteService.PercentAtMost100` | src/services/noteService.js:169 | a share of at most the whole rounds to at most 100 |
| `NoteService.SuccessRateAtMost100` | src/services/noteService.js:161-170 | over well-formed notes total successes never exceed total reviews and the average success rate is at most 100 |
| `NoteService.DueSplit` | src/services/noteService.js:150-159 | due plus overdue is the number of notes `getDueNotes` returns |
| `NoteService.GetStats` | src/services/noteService.js:134-173 | total, due-today, overdue and reviewed counts, and the rounded success rate (0 with no reviews) |
| `NoteService.NoteStore.constructor` | src/services/noteService.js:74-77 | an empty store: no notes, no saved tags |
| `NoteService.NoteStore.SaveTags` | src/services/noteService.js:204-209 | the registry becomes the merge of old and new tags and is returned; notes untouched; registry stays sorted |
| `NoteService.NoteStore.AutoSaveTags` | src/services/noteService.js:252-256 | saves only a non-empty tag list |
| `NoteService.NoteStore.SaveNote` | src/services/noteService.js:80-84 | appends the note and nothing else |
| `NoteService.NoteStore.CreateNote` | src/services/noteService.js:16-35 | returns the new record, appends it, registers its tags when there are any |
| `NoteService.NoteStore.UpdateNote` | src/services/noteService.js:38-58 | unknown id: returns none, nothing changes; else the list becomes `WithUpdate`, the edited note is returned and its tags registered |
| `NoteService.NoteStore.DeleteNote` | src/services/noteService.js:61-65 | the list becomes `WithoutId`; registry untouched |
| `NoteService.NoteStore.UpdateStudyProgress` | src/services/noteService.js:98-123 | the list becomes `WithProgress`; registry untouched; notes stay well formed |
| `NoteService.NoteStore.AddTag` | src/services/noteService.js:223-234 | a missing, empty or all-space tag changes nothing; otherwise the trimmed tag is merged in; an already registered tag changes nothing |
| `NoteService.NoteStore.RemoveTag` | src/services/noteService.js:237-242 | exactly that tag leaves the registry, the rest keep their order and stay sorted |
| `StudySession.Initial` | src/components/StudySession.jsx:4-6 | index 0, face down, nothing studied |
| `StudySession.CurrentNote` | src/components/StudySession.jsx:8 | the note at the index, none past the end |
| `StudySession.CurrentNoteDefined` | src/components/StudySession.jsx:8 | under the invariant there is a current note iff the batch is non-empty |
| `StudySession.Flip` | src/components/StudySession.jsx:18-20 | toggles the card's side and nothing else |
| `StudySession.FlipTwice` | src/components/StudySession.jsx:18-20 | two flips restore the state |
| `StudySession.Advance` | src/components/StudySession.jsx:30-35 | next note face down, or on the last note `onFinish` and no change |
| `StudySession.Respond` | src/components/StudySession.jsx:22-36 | with a current note: reports its id and the outcome once, marks it studied, advances; without: nothing |
| `StudySession.Skip` | src/components/StudySession.jsx:38-45 | advances like an answer, with no report and no new studied note |
| `StudySession.ApplyKeepsInv` | src/components/StudySession.jsx:18-45 | every handler keeps the index on the batch and studied ids among the visited notes |
| `StudySession.RunKeepsInv` | src/components/StudySession.jsx:18-45 | any sequence of events keeps that invariant |
| `StudySession.FromResetKeepsInv` | src/components/StudySession.jsx:11-16 | from the reset state the invariant holds after any events |
| `StudySession.RunReports` | src/components/StudySession.jsx:22-36 | no more reports than answers; the studied set grows by exactly the reported ids |
| `StudySession.NoAnswerNoReport` | src/components/StudySession.jsx:38-45 | flips and skips never report and never mark a note studied |
| `StudySession.EmptyBatchReportsNothing` | src/components/StudySession.jsx:22-23 | with an empty batch no event reports an outcome |
| `StudySession.View` | src/components/StudySession.jsx:47-100 | the empty-batch screen iff the batch is empty; a card iff the index addresses a note, showing that note, its position, the total and the flip state |
| `StudySession.ViewShowsCard` | src/components/StudySession.jsx:61-75 | under the invariant a non-empty batch always shows a card |
| `StudySession.Session.constructor` | src/components/StudySession.jsx:4-6 | the initial state over the batch |
| `StudySession.Session.Reset` | src/components/StudySession.jsx:11-16 | the initial state over the new batch |
| `StudySession.Session.HandleFlip` | src/components/StudySession.jsx:18-20 | the new state is `Flip` of the old; invariant kept |
| `StudySession.Session.HandleResponse` | src/components/StudySession.jsx:22-36 | report, finish flag and new state are those of `Respond`; invariant kept |
| `StudySession.Session.HandleSkip` | src/components/StudySession.jsx:38-45 | finish flag and new state are those of `Skip`; invariant kept |
| `NoteModal.InitialForm` | src/components/NoteModal.jsx:4-8 | the edited note's fields, or empty fields and no tags |
| `NoteModal.CanSubmit` | src/components/NoteModal.jsx:127 | submittable iff neither title nor description is all spaces |
| `NoteModal.Submit` | src/components/NoteModal.jsx:11-16 | `onSave` receives the form data exactly when the guard passes |
| `NoteModal.BlankTitleNotSaved` | src/components/NoteModal.jsx:13 | an all-space title is never saved |
| `NoteModal.NewTag` | src/components/NoteModal.jsx:19-20 | the trimmed input, iff it is non-empty and not yet listed |
| `NoteModal.AddedTags` | src/components/NoteModal.jsx:18-27 | appends exactly the new tag, if any; a duplicate-free list stays duplicate-free |
| `NoteModal.RemovedTags` | src/components/NoteModal.jsx:29-34 | every occurrence of that tag removed, every other occurrence kept in order; duplicate-free kept |
| `NoteModal.AddThenRemove` | src/components/NoteModal.jsx:18-34 | removing a tag just added restores the list |
| `NoteModal.NoteForm.constructor` | src/components/NoteModal.jsx:4-9 | the initial form and an empty input box |
| `NoteModal.NoteForm.SetTitle` | src/components/NoteModal.jsx:62 | only the title changes |
| `NoteModal.NoteForm.SetDescription` | src/components/NoteModal.jsx:74 | only the description changes |
| `NoteModal.NoteForm.SetTagInput` | src/components/NoteModal.jsx:88 | only the input box changes |
| `NoteModal.NoteForm.HandleAddTag` | src/components/NoteModal.jsx:18-27 | tags become `AddedTags`; the input is cleared exactly when a tag was added |
| `NoteModal.NoteForm.HandleRemoveTag` | src/components/NoteModal.jsx:29-34 | tags become `RemovedTags`; input untouched |
| `NoteModal.NoteForm.HandleSubmit` | src/components/NoteModal.jsx:11-16 | returns what `Submit` gives |
| `Library.NoteStatus` | src/components/Library.jsx:61-69 | overdue iff a full day past the review date, due iff within its first day, upcoming iff before it |
| `Library.StatusMatchesLabel` | src/components/Library.jsx:61-69 | the badge is "due" iff the label says "Due today", "overdue" iff the label is an overdue label |
| `Library.StatusAgreesWithStats` | src/components/Library.jsx:64-67 | the notes badged due and overdue are as many as `getStats` counts |
| `Library.Selected` | src/components/Library.jsx:12-24 | exactly the search matches (or the prop notes for a blank query) carrying every selected tag, in the order of the list they come from and each as often as there; the prop list itself when no filter applies |
| `Library.FilterByTagsSetOnly` | src/components/Library.jsx:20-24 | only the set of selected tags matters to the filter |
| `Library.Toggled` | src/components/Library.jsx:47-53 | the tag's membership flips; every other tag keeps its number of occurrences; an absent tag is appended |
| `Library.ToggleTwice` | src/components/Library.jsx:47-53 | toggling twice restores an unselected tag's selection exactly, and any selection's set and shown list |
| `Library.ToggleNoDuplicates` | src/components/Library.jsx:47-53 | a duplicate-free selection stays duplicate-free |
| `Library.Arrange` | src/components/Library.jsx:26-42 | a permutation of the input; unchanged for an unknown mode |
| `Library.ArrangeOrder` | src/components/Library.jsx:27-39 | newest first, earliest due first, or most reviewed first |
| `Util.SortByKeyStable` | src/components/Library.jsx:29 | the sort is stable: the elements with any one key keep their input order |
| `Util.FilterCount` | src/components/Library.jsx:21-23 | a filter keeps every occurrence of each element it keeps and none of the others |
| `Library.SortInPlace` | src/components/Library.jsx:29 | the array becomes the stable sort of its old contents |
| `Library.InsertLast` | src/components/Library.jsx:29 | one insertion pass places the next element into the sorted prefix and leaves the rest |
| `Library.LibraryView.constructor` | src/components/Library.jsx:5-7 | empty query, no tags, newest first |
| `Library.LibraryView.HandleTagToggle` | src/components/Library.jsx:47-53 | selection becomes `Toggled`; query and sort untouched |
| `Library.LibraryView.FilteredNotes` | src/components/Library.jsx:11-45 | the selected notes in the chosen order; with no filter it is the prop array, sorted in place; otherwise a fresh array and the prop untouched |
| `Stats.IntervalDistribution` | src/components/Stats.jsx:7-15 | five buckets, bucket b the number of notes on rung b |
| `Stats.BucketsSum` | src/components/Stats.jsx:8-13 | the buckets add up to the notes on the ladder, all notes when well formed |
| `Stats.EntryOf` | src/components/Stats.jsx:21 | the table position holding the tag, or none exactly when no entry has it |
| `Stats.Bump` | src/components/Stats.jsx:21 | the tag's count goes up by one, or it is appended with count 1; other entries unchanged; tags stay distinct |
| `Stats.Tally` | src/components/Stats.jsx:18-23 | one entry per distinct tag, an entry iff the tag occurs, each count its number of occurrences |
| `Stats.TallyStep` | src/components/Stats.jsx:21 | counting one more tag is bumping its entry |
| `Stats.CountTag` | src/components/Stats.jsx:21 | the table after one increment is `Bump` |
| `Stats.CountNoteTags` | src/components/Stats.jsx:20-22 | counting one note's tags extends the table of the tags seen |
| `Stats.TagCounts` | src/components/Stats.jsx:17-23 | the counting loops build the table of all tag occurrences |
| `Stats.TopTags` | src/components/Stats.jsx:25-27 | at most ten entries, ten when there are that many |
| `Stats.TopTagsOrder` | src/components/Stats.jsx:25-27 | descending counts; entries from the table, each shown at most as often as it occurs there; any entry left out counts no more than the last shown |
| `Stats.TopTagsCounts` | src/components/Stats.jsx:17-27 | every entry shown is a tag of some note with its exact number of occurrences |
| `Stats.RecentActivity` | src/components/Stats.jsx:30-37 | at most ten notes |
| `Stats.RecentActivityShown` | src/components/Stats.jsx:31-34 | only reviewed notes of the list are shown, each at most as often as it occurs among them |
| `Stats.RecentActivityOrder` | src/components/Stats.jsx:33 | newest review first |
| `Stats.RecentActivityLeftOut` | src/components/Stats.jsx:33-34 | a reviewed note left out was reviewed no later than the tenth shown |
| `Stats.ShownSuccessful` | src/components/Stats.jsx:141 | green iff more than half the reviews succeeded |

## Left out

- Persistence: `getAllNotes`, `getSavedTags` and every `localStorage` write
  with its JSON encoding, including the parse-error fallback. The store's
  two collections are fields instead.
- The clock and the calendar. `new Date()` is a parameter. `setDate`
  calendar-day addition is modelled as a whole number of 24-hour days, so
  daylight-saving shifts are not modelled. Dates are epoch milliseconds,
  not ISO strings. `createNote` reads the clock twice, once for
  `createdAt` and once for `nextReview`. The model merges the two reads
  into one `now`, so a new note is due exactly one day after its
  creation, where the source only promises about one day.
- Id generation from `Date.now()`: the id is a parameter, and equal ids
  created in the same millisecond are not modelled.
- Unicode: `trim` and `toLowerCase` are ASCII only, and strings compare by
  character code. JavaScript's default `sort()` compares UTF-16 code units,
  which differ from code points only outside the Basic Multilingual Plane.
- The "title" sort mode (`localeCompare`, a locale collation), and
  `toLocaleDateString` in the activity list.
- `addTestTags`, a development helper that logs to the console.
- Rendering details: the progress bar percentage and `toFixed` output, the
  markup, navigation, and the `window.confirm` before a delete.
- `Stats.IntervalDistribution`: a note whose `intervalIndex` lies outside
  the ladder would add a sixth `NaN` key in the source. The model counts
  only the five rungs, and `updateStudyProgress` keeps every index on the
  ladder.
- `Stats.TagCounts`, `Stats.Tally`, `Stats.Bump`, `Stats.CountTag`,
  `Stats.CountNoteTags` and `Stats.TopTagsCounts`: the table is a plain
  object, so a tag named after an inherited property behaves differently.
  For "constructor", "toString", "valueOf" or "hasOwnProperty" the first
  count is the inherited function plus 1, a string. The comparator then
  gives `NaN`, and the order of the top ten is up to the engine. A tag
  named "__proto__" is never stored. The model counts every tag name as
  an ordinary key.
- `Stats.TagCounts`: the entry order of `Object.entries` puts
  integer-like tag names ("2024") first in numeric order. The model keeps
  first-occurrence order for every tag.
- `NoteService.NoteStore.AddTag`: `typeof tag !== 'string'` covers any
  non-string value. The model represents every such value as `None`.
- `NoteService.RoundedPercent`: the model rounds the exact rational. The
  source applies `Math.round` to the floating-point value of
  `part/whole*100`, which can fall just below a half: 23 of 40 gives 57 in
  the source and 58 in the model, 29 of 200 gives 14 and 15.
- `Library.SortInPlace`: JavaScript's sort algorithm is not specified
  beyond being stable. The model uses a stable insertion sort, which yields
  the same order.
