/** The statistics page of `src/components/Stats.jsx`: the histogram of
    notes per ladder rung, the tag frequency table with its top ten, and
    the ten most recently reviewed notes. The counting loops are methods
    proved against the functions `BucketCount` and `Tally`; the sorted,
    truncated lists are functions. */
module Stats {
  import opened Util
  import opened Notes
  import opened NoteService

  // ---------------------------------------------------------------------
  // Interval distribution

  /** The notes on rung `b` of the ladder. */
  function BucketCount(notes: seq<Note>, b: nat): nat
  {
    |Filter(notes, (n: Note) => n.intervalIndex == b)|
  }

  /** The notes on some rung of the ladder. */
  function OnLadderCount(notes: seq<Note>): nat
  {
    |Filter(notes, (n: Note) => n.intervalIndex < |INTERVALS|)|
  }

  /** `getIntervalDistribution`: five buckets starting at zero, each note
      adding one to the bucket of its interval index. */
  method IntervalDistribution(notes: seq<Note>) returns (distribution: seq<nat>)
    ensures |distribution| == |INTERVALS|
    ensures forall b :: 0 <= b < |INTERVALS| ==> distribution[b] == BucketCount(notes, b)
  {
    distribution := [0, 0, 0, 0, 0];
    var i := 0;
    while i < |notes|
      invariant 0 <= i <= |notes|
      invariant |distribution| == |INTERVALS|
      invariant forall b :: 0 <= b < |INTERVALS| ==> distribution[b] == BucketCount(notes[..i], b)
    {
      var note := notes[i];
      assert notes[..i + 1] == notes[..i] + [note];
      forall b | 0 <= b < |INTERVALS|
        ensures BucketCount(notes[..i + 1], b) ==
          BucketCount(notes[..i], b) + (if note.intervalIndex == b then 1 else 0)
      {
        FilterAppend(notes[..i], [note], (n: Note) => n.intervalIndex == b);
      }
      if note.intervalIndex < |INTERVALS| {
        distribution := distribution[note.intervalIndex := distribution[note.intervalIndex] + 1];
      }
      i := i + 1;
    }
    assert notes[..i] == notes;
  }

  /** The buckets add up to the notes on the ladder, which is every note
      when all are well formed. */
  lemma {:induction false} BucketsSum(notes: seq<Note>)
    ensures BucketCount(notes, 0) + BucketCount(notes, 1) + BucketCount(notes, 2) +
            BucketCount(notes, 3) + BucketCount(notes, 4) == OnLadderCount(notes)
    ensures AllWellFormed(notes) ==> OnLadderCount(notes) == |notes|
  {
    if notes != [] {
      BucketsSum(notes[1..]);
      var i := notes[0].intervalIndex;
      assert BucketCount(notes, 0) == BucketCount(notes[1..], 0) + (if i == 0 then 1 else 0);
      assert BucketCount(notes, 1) == BucketCount(notes[1..], 1) + (if i == 1 then 1 else 0);
      assert BucketCount(notes, 2) == BucketCount(notes[1..], 2) + (if i == 2 then 1 else 0);
      assert BucketCount(notes, 3) == BucketCount(notes[1..], 3) + (if i == 3 then 1 else 0);
      assert BucketCount(notes, 4) == BucketCount(notes[1..], 4) + (if i == 4 then 1 else 0);
      assert OnLadderCount(notes) == OnLadderCount(notes[1..]) + (if i < 5 then 1 else 0);
      assert AllWellFormed(notes) ==> AllWellFormed(notes[1..]) && WellFormed(notes[0]);
    }
  }

  // ---------------------------------------------------------------------
  // Tag frequencies

  /** One `[tag, count]` entry of the frequency table. */
  datatype TagCount = TagCount(tag: string, count: nat)

  predicate DistinctTags(entries: seq<TagCount>)
  {
    forall i, j :: 0 <= i < j < |entries| ==> entries[i].tag != entries[j].tag
  }

  /** The number of times `t` occurs in `s`. */
  function Occurrences(s: seq<string>, t: string): nat
  {
    if s == [] then 0
    else Occurrences(s[..|s| - 1], t) + (if s[|s| - 1] == t then 1 else 0)
  }

  /** A tag absent from a sequence occurs in it zero times. */
  lemma {:induction false} OccurrencesAbsent(s: seq<string>, t: string)
    requires t !in s
    ensures Occurrences(s, t) == 0
  {
    if s != [] {
      OccurrencesAbsent(s[..|s| - 1], t);
    }
  }

  /** Where `t` has an entry, if it has one. */
  function EntryOf(entries: seq<TagCount>, t: string): (r: Option<nat>)
    ensures r.Some? ==> r.value < |entries| && entries[r.value].tag == t
    ensures r.None? <==> forall i :: 0 <= i < |entries| ==> entries[i].tag != t
  {
    if entries == [] then None
    else if entries[|entries| - 1].tag == t then Some(|entries| - 1)
    else EntryOf(entries[..|entries| - 1], t)
  }

  /** `tagCounts[tag] = (tagCounts[tag] || 0) + 1` on a table with one entry
      per tag: the tag's count goes up by one, a new tag is added last with
      count one. */
  function Bump(entries: seq<TagCount>, t: string): (r: seq<TagCount>)
    requires DistinctTags(entries)
    ensures DistinctTags(r)
    ensures EntryOf(entries, t).Some? ==> |r| == |entries|
    ensures EntryOf(entries, t).None? ==> |r| == |entries| + 1 && r[|entries|] == TagCount(t, 1)
    ensures forall i :: 0 <= i < |entries| ==>
      r[i].tag == entries[i].tag &&
      r[i].count == entries[i].count + (if entries[i].tag == t then 1 else 0)
  {
    match EntryOf(entries, t)
    case Some(i) => entries[i := TagCount(t, entries[i].count + 1)]
    case None => entries + [TagCount(t, 1)]
  }

  /** After a bump, a tag has an entry when it had one or is the tag bumped. */
  lemma BumpListed(entries: seq<TagCount>, t: string, u: string)
    requires DistinctTags(entries)
    ensures EntryOf(Bump(entries, t), u).Some? <==> EntryOf(entries, u).Some? || u == t
  {
    var r := Bump(entries, t);
    if EntryOf(r, u).Some? {
      var i := EntryOf(r, u).value;
      if i < |entries| {
        assert entries[i].tag == u;
      }
    }
    if EntryOf(entries, u).Some? {
      var i := EntryOf(entries, u).value;
      assert r[i].tag == u;
    }
    if u == t {
      if EntryOf(entries, t).Some? {
        assert r[EntryOf(entries, t).value].tag == t;
      } else {
        assert r[|entries|].tag == t;
      }
    }
  }

  /** The frequency table of a tag sequence, built left to right: one entry
      per distinct tag, in order of first occurrence, each with its number
      of occurrences. */
  function Tally(s: seq<string>): (r: seq<TagCount>)
    ensures DistinctTags(r)
    ensures forall t :: t in s <==> EntryOf(r, t).Some?
    ensures forall i :: 0 <= i < |r| ==> r[i].count == Occurrences(s, r[i].tag)
  {
    if s == [] then []
    else
      var init, last := s[..|s| - 1], s[|s| - 1];
      assert s == init + [last];
      BumpCounts(init, last, Tally(init));
      Bump(Tally(init), last)
  }

  /** Bumping the table of `init` for `last` gives a table of `init + [last]`:
      the same tags listed, plus `last`, and every count right. */
  lemma BumpCounts(init: seq<string>, last: string, before: seq<TagCount>)
    requires DistinctTags(before)
    requires forall t :: t in init <==> EntryOf(before, t).Some?
    requires forall i :: 0 <= i < |before| ==> before[i].count == Occurrences(init, before[i].tag)
    ensures forall t :: t in init + [last] <==> EntryOf(Bump(before, last), t).Some?
    ensures var r := Bump(before, last);
      forall i :: 0 <= i < |r| ==> r[i].count == Occurrences(init + [last], r[i].tag)
  {
    var r := Bump(before, last);
    forall t ensures t in init + [last] <==> EntryOf(r, t).Some? {
      BumpListed(before, last, t);
    }
    assert (init + [last])[..|init|] == init;
    if EntryOf(before, last).None? {
      OccurrencesAbsent(init, last);
    }
  }

  /** Counting one more tag is bumping its entry. */
  lemma TallyStep(seen: seq<string>, tag: string)
    ensures Tally(seen + [tag]) == Bump(Tally(seen), tag)
  {
    assert (seen + [tag])[..|seen|] == seen;
  }

  /** One `tagCounts[tag] = (tagCounts[tag] || 0) + 1`. */
  method CountTag(entries: seq<TagCount>, tag: string) returns (r: seq<TagCount>)
    requires DistinctTags(entries)
    ensures r == Bump(entries, tag)
  {
    var found := EntryOf(entries, tag);
    if found.Some? {
      r := entries[found.value := TagCount(tag, entries[found.value].count + 1)];
    } else {
      r := entries + [TagCount(tag, 1)];
    }
  }

  lemma FlattenStep(notes: seq<Note>, i: nat)
    requires i < |notes|
    ensures Flatten(notes[..i + 1]) == Flatten(notes[..i]) + notes[i].tags
  {
    assert notes[..i + 1][..i] == notes[..i];
  }

  /** Counting the next tag of a note is bumping its entry. */
  lemma TallyNext(seen: seq<string>, tags: seq<string>, k: nat)
    requires k < |tags|
    ensures Tally(seen + tags[..k + 1]) == Bump(Tally(seen + tags[..k]), tags[k])
  {
    assert seen + tags[..k + 1] == (seen + tags[..k]) + [tags[k]];
    TallyStep(seen + tags[..k], tags[k]);
  }

  /** The inner loop of `getTagStats`: counting one note's tags on top of
      the table of the tags seen so far. */
  method CountNoteTags(entries: seq<TagCount>, ghost seen: seq<string>, tags: seq<string>)
    returns (r: seq<TagCount>)
    requires entries == Tally(seen)
    ensures r == Tally(seen + tags)
  {
    r := entries;
    var k := 0;
    assert seen + tags[..0] == seen;
    while k < |tags|
      invariant 0 <= k <= |tags|
      invariant r == Tally(seen + tags[..k])
    {
      TallyNext(seen, tags, k);
      r := CountTag(r, tags[k]);
      k := k + 1;
    }
    assert tags[..k] == tags;
  }

  /** `getTagStats`' counting loop over every tag of every note. */
  method TagCounts(notes: seq<Note>) returns (entries: seq<TagCount>)
    ensures entries == Tally(Flatten(notes))
  {
    entries := [];
    var i := 0;
    while i < |notes|
      invariant 0 <= i <= |notes|
      invariant entries == Tally(Flatten(notes[..i]))
    {
      entries := CountNoteTags(entries, Flatten(notes[..i]), notes[i].tags);
      FlattenStep(notes, i);
      i := i + 1;
    }
    assert notes[..i] == notes;
  }

  function CountKey(e: TagCount): int
  {
    -(e.count as int)
  }

  /** `getTagStats`: the frequency table sorted by count, most frequent
      first (ties in table order), cut to ten entries. */
  function TopTags(entries: seq<TagCount>): (r: seq<TagCount>)
    ensures |r| == if |entries| < 10 then |entries| else 10
  {
    Take(SortByKey(entries, CountKey), 10)
  }

  /** The top ten are the most frequent entries, in descending count: an
      entry left out counts no more than the last one shown. */
  lemma TopTagsOrder(entries: seq<TagCount>)
    ensures var r := TopTags(entries);
      (forall i, j :: 0 <= i < j < |r| ==> r[i].count >= r[j].count) &&
      (forall e :: e in r ==> e in entries) &&
      multiset(r) <= multiset(entries) &&
      (forall e :: e in entries && e !in r ==> |r| == 10 && e.count <= r[9].count)
  {
    var r := TopTags(entries);
    TopInOrder(entries, CountKey, 10);
    TopFromInput(entries, CountKey, 10);
    forall e | e in entries && e !in r ensures |r| == 10 && e.count <= r[9].count {
      TopLeftOut(entries, CountKey, 10, e);
    }
  }

  /** Over a note list, every entry shown carries a tag of some note and
      that tag's exact number of occurrences. */
  lemma TopTagsCounts(notes: seq<Note>)
    ensures forall e :: e in TopTags(Tally(Flatten(notes))) ==>
      e.tag in Flatten(notes) && e.count == Occurrences(Flatten(notes), e.tag)
  {
    var table := Tally(Flatten(notes));
    TopTagsOrder(table);
    forall e | e in TopTags(table)
      ensures e.tag in Flatten(notes) && e.count == Occurrences(Flatten(notes), e.tag)
    {
      var i :| 0 <= i < |table| && table[i] == e;
      assert EntryOf(table, e.tag).Some?;
    }
  }

  // ---------------------------------------------------------------------
  // Recent activity

  function Reviewed(n: Note): bool
  {
    n.lastReviewed.Some?
  }

  /** Most recent review first. */
  function RecencyKey(n: Note): int
  {
    match n.lastReviewed
    case Some(t) => -t
    case None => 0
  }

  /** `getRecentActivity`: the reviewed notes, most recently reviewed
      first (ties in list order), at most ten. */
  function RecentActivity(notes: seq<Note>): (r: seq<Note>)
    ensures |r| <= 10
  {
    Take(SortByKey(Filter(notes, Reviewed), RecencyKey), 10)
  }

  /** Only reviewed notes from the list are shown, each at most as often
      as it occurs there. */
  lemma RecentActivityShown(notes: seq<Note>)
    ensures forall n :: n in RecentActivity(notes) ==> n in notes && n.lastReviewed.Some?
    ensures multiset(RecentActivity(notes)) <= multiset(Filter(notes, Reviewed))
  {
    TopFromInput(Filter(notes, Reviewed), RecencyKey, 10);
  }

  /** The notes shown are in order of review time, newest first. */
  lemma RecentActivityOrder(notes: seq<Note>)
    ensures var r := RecentActivity(notes);
      forall i, j :: 0 <= i < j < |r| ==>
        r[i].lastReviewed.Some? && r[j].lastReviewed.Some? &&
        r[i].lastReviewed.value >= r[j].lastReviewed.value
  {
    var r := RecentActivity(notes);
    TopInOrder(Filter(notes, Reviewed), RecencyKey, 10);
    RecentActivityShown(notes);
    forall i, j | 0 <= i < j < |r|
      ensures r[i].lastReviewed.Some? && r[j].lastReviewed.Some? &&
        r[i].lastReviewed.value >= r[j].lastReviewed.value
    {
      assert r[i] in r && r[j] in r;
      assert RecencyKey(r[i]) <= RecencyKey(r[j]);
    }
  }

  /** A reviewed note left out was reviewed no later than the last one
      shown, and is left out only when ten are shown. */
  lemma RecentActivityLeftOut(notes: seq<Note>, n: Note)
    requires n in notes && n.lastReviewed.Some? && n !in RecentActivity(notes)
    ensures var r := RecentActivity(notes);
      |r| == 10 && r[9].lastReviewed.Some? && n.lastReviewed.value <= r[9].lastReviewed.value
  {
    var r := RecentActivity(notes);
    assert n in Filter(notes, Reviewed);
    TopLeftOut(Filter(notes, Reviewed), RecencyKey, 10, n);
    RecentActivityShown(notes);
    assert r[9] in r;
  }

  /** The activity row's colour: a note counts as successful when more
      than half of its reviews succeeded. */
  function ShownSuccessful(n: Note): (ok: bool)
    ensures ok <==> 2 * n.successCount > n.reviewCount
  {
    n.successCount as real > n.reviewCount as real / 2.0
  }
}
