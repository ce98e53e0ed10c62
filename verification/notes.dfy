/** The note record and the fixed-ladder (Leitner-style) scheduling rule of
    `src/services/noteService.js`. Time is an integer number of milliseconds
    since the epoch; a day is `DAY_MS` milliseconds. */
module Notes {
  import opened Util

  /** Milliseconds in a day (`1000 * 60 * 60 * 24`). */
  const DAY_MS: int := 86400000

  /** The review ladder, in days. */
  const INTERVALS: seq<nat> := [1, 3, 7, 14, 30]

  /** A note as stored. `lastReviewed` is `None` until the first review
      (`null` in the stored record). */
  datatype Note = Note(
    id: string,
    title: string,
    description: string,
    tags: seq<string>,
    createdAt: int,
    lastReviewed: Option<int>,
    nextReview: int,
    intervalIndex: nat,
    reviewCount: nat,
    successCount: nat)

  /** The record invariants: the interval index addresses the ladder and no
      note has more successes than reviews. */
  predicate WellFormed(n: Note)
  {
    n.intervalIndex < |INTERVALS| && n.successCount <= n.reviewCount
  }

  /** `Math.floor(ms / DAY_MS)`: the whole days in `ms`, rounded down. */
  function FloorDays(ms: int): (d: int)
    ensures d * DAY_MS <= ms < d * DAY_MS + DAY_MS
  {
    ms / DAY_MS
  }

  /** `Math.ceil(ms / DAY_MS)`: the whole days in `ms`, rounded up. */
  function CeilDays(ms: int): (d: int)
    ensures d * DAY_MS - DAY_MS < ms <= d * DAY_MS
  {
    if ms % DAY_MS == 0 then ms / DAY_MS else ms / DAY_MS + 1
  }

  /** Rounding up is rounding the negation down, negated. */
  lemma CeilIsNegatedFloor(ms: int)
    ensures CeilDays(ms) == -FloorDays(-ms)
  {
    var c, f := CeilDays(ms), FloorDays(-ms);
    assert c * DAY_MS - DAY_MS < ms <= c * DAY_MS;
    assert f * DAY_MS <= -ms < f * DAY_MS + DAY_MS;
    assert (c + f) * DAY_MS < DAY_MS && -DAY_MS < (c + f) * DAY_MS;
  }

  /** The number of whole days `now` lies past `nextReview`, rounded down:
      the quantity `getStats` and `getNoteStatus` classify notes by. */
  function DaysLate(nextReview: int, now: int): (d: int)
    ensures d >= 0 <==> nextReview <= now
    ensures d == 0 <==> nextReview <= now < nextReview + DAY_MS
    ensures d > 0 <==> nextReview + DAY_MS <= now
  {
    FloorDays(now - nextReview)
  }

  /** `calculateNextReview(now, i)`: the date `INTERVALS[i]` days after `now`. */
  function NextReview(now: int, i: nat): (r: int)
    requires i < |INTERVALS|
    ensures now + DAY_MS <= r <= now + 30 * DAY_MS
    ensures i == 0 ==> r == now + DAY_MS
  {
    now + INTERVALS[i] * DAY_MS
  }

  /** A higher rung of the ladder never schedules earlier. */
  lemma NextReviewMonotone(now: int, i: nat, j: nat)
    requires i <= j < |INTERVALS|
    ensures NextReview(now, i) <= NextReview(now, j)
  {
  }

  /** The record after one `updateStudyProgress(id, success)` at time `now`:
      one more review, one more success on success, the interval index one
      rung up (saturating at the top) on success and back to the bottom on
      failure, and the next review that many days after `now`. */
  function Review(n: Note, success: bool, now: int): (r: Note)
    ensures r.intervalIndex < |INTERVALS|
    ensures r.nextReview == NextReview(now, r.intervalIndex)
    ensures r.lastReviewed == Some(now)
    ensures WellFormed(n) ==> WellFormed(r)
    ensures r.id == n.id && r.title == n.title && r.description == n.description
    ensures r.tags == n.tags && r.createdAt == n.createdAt
  {
    var index := if success then
      (if n.intervalIndex + 1 < |INTERVALS| - 1 then n.intervalIndex + 1 else |INTERVALS| - 1)
    else 0;
    n.(lastReviewed := Some(now),
       reviewCount := n.reviewCount + 1,
       successCount := if success then n.successCount + 1 else n.successCount,
       intervalIndex := index,
       nextReview := NextReview(now, index))
  }

  /** One review outcome, as `StudySession` reports it, with its time. */
  datatype Outcome = Outcome(success: bool, at: int)

  /** The record after a history of reviews, oldest first. */
  function ReviewAll(n: Note, history: seq<Outcome>): Note
    decreases |history|
  {
    if history == [] then n
    else ReviewAll(Review(n, history[0].success, history[0].at), history[1..])
  }

  /** The number of successful outcomes in a history. */
  function Successes(history: seq<Outcome>): nat
  {
    if history == [] then 0
    else (if history[0].success then 1 else 0) + Successes(history[1..])
  }

  /** Every review is counted, every success is counted, and the record
      invariants hold after any history. */
  lemma {:induction false} ReviewAllCounts(n: Note, history: seq<Outcome>)
    ensures ReviewAll(n, history).reviewCount == n.reviewCount + |history|
    ensures ReviewAll(n, history).successCount == n.successCount + Successes(history)
    ensures WellFormed(n) ==> WellFormed(ReviewAll(n, history))
    decreases |history|
  {
    if history != [] {
      ReviewAllCounts(Review(n, history[0].success, history[0].at), history[1..]);
    }
  }

  /** Whatever the stored index, a reviewed note's index is within the ladder,
      so `successCount <= reviewCount` is the only invariant reviews can
      inherit from the record. */
  lemma {:induction false} ReviewAllIndexBound(n: Note, history: seq<Outcome>)
    requires history != []
    ensures ReviewAll(n, history).intervalIndex <= |INTERVALS| - 1
    decreases |history|
  {
    if |history| > 1 {
      ReviewAllIndexBound(Review(n, history[0].success, history[0].at), history[1..]);
    }
  }

  /** `k` successes in a row climb `k` rungs from a valid index, stopping at
      the top; the index never goes down along the way. */
  lemma {:induction false} SuccessStreak(n: Note, history: seq<Outcome>)
    requires n.intervalIndex < |INTERVALS|
    requires forall i :: 0 <= i < |history| ==> history[i].success
    ensures ReviewAll(n, history).intervalIndex >= n.intervalIndex
    ensures ReviewAll(n, history).intervalIndex ==
      if n.intervalIndex + |history| < |INTERVALS| - 1 then n.intervalIndex + |history| else |INTERVALS| - 1
    decreases |history|
  {
    if history != [] {
      SuccessStreak(Review(n, history[0].success, history[0].at), history[1..]);
    }
  }

  /** A history that ends in a failure leaves the note on the first rung, due
      one day after that failure, whatever came before. */
  lemma {:induction false} FailureResets(n: Note, history: seq<Outcome>)
    requires history != [] && !history[|history| - 1].success
    ensures ReviewAll(n, history).intervalIndex == 0
    ensures ReviewAll(n, history).nextReview == history[|history| - 1].at + DAY_MS
    decreases |history|
  {
    if |history| > 1 {
      FailureResets(Review(n, history[0].success, history[0].at), history[1..]);
    }
  }
}
