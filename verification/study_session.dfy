/** The review-session controller of `src/components/StudySession.jsx`: a
    state machine over `(currentIndex, isFlipped, studiedNotes)` walking a
    fixed batch of notes. The callbacks `onStudyComplete(id, success)` and
    `onFinish()` become outputs of each step: a `Report` and a `finished`
    flag. The step functions specify the handlers of the `Session` class and
    let the lemmas speak about whole sequences of user events. */
module StudySession {
  import opened Util
  import opened Notes

  /** One `onStudyComplete(id, success)` call. */
  datatype Report = Report(id: string, success: bool)

  /** The component's three state variables. */
  datatype State = State(currentIndex: nat, isFlipped: bool, studiedNotes: set<string>)

  /** What one handler call produces: the next state, the outcome reported
      (if any) and whether `onFinish` was called. */
  datatype Step = Step(state: State, report: Option<Report>, finished: bool)

  /** The state the component starts in, and resets to whenever its batch
      changes. */
  function Initial(): (s: State)
    ensures s.currentIndex == 0 && !s.isFlipped && s.studiedNotes == {}
  {
    State(0, false, {})
  }

  /** The session invariant: the index addresses the batch (it is 0 for an
      empty batch), and every studied id belongs to a note at or before the
      current one. */
  ghost predicate Inv(batch: seq<Note>, s: State)
  {
    (|batch| == 0 ==> s.currentIndex == 0) &&
    (|batch| > 0 ==> s.currentIndex < |batch|) &&
    forall id :: id in s.studiedNotes ==>
      exists j :: 0 <= j <= s.currentIndex && j < |batch| && batch[j].id == id
  }

  /** The note on screen, if the index addresses one. */
  function CurrentNote(batch: seq<Note>, s: State): (r: Option<Note>)
    ensures r.Some? <==> s.currentIndex < |batch|
    ensures r.Some? ==> r.value == batch[s.currentIndex]
  {
    if s.currentIndex < |batch| then Some(batch[s.currentIndex]) else None
  }

  /** A state satisfying the invariant has a current note exactly when the
      batch is non-empty. */
  lemma CurrentNoteDefined(batch: seq<Note>, s: State)
    requires Inv(batch, s)
    ensures CurrentNote(batch, s).Some? <==> |batch| > 0
  {
  }

  /** `handleFlip`: toggles the answer's visibility and nothing else. */
  function Flip(s: State): (r: State)
    ensures r.isFlipped == !s.isFlipped
    ensures r.currentIndex == s.currentIndex && r.studiedNotes == s.studiedNotes
  {
    s.(isFlipped := !s.isFlipped)
  }

  /** Flipping twice restores the state. */
  lemma FlipTwice(s: State)
    ensures Flip(Flip(s)) == s
  {
  }

  /** The advance rule shared by `handleResponse` and `handleSkip`: move to
      the next note face down, or, on the last note, call `onFinish` and stay. */
  function Advance(batch: seq<Note>, s: State): (r: Step)
    ensures r.report == None && r.state.studiedNotes == s.studiedNotes
    ensures s.currentIndex + 1 < |batch| ==>
      !r.finished && r.state.currentIndex == s.currentIndex + 1 && !r.state.isFlipped
    ensures s.currentIndex + 1 >= |batch| ==> r.finished && r.state == s
  {
    if s.currentIndex < |batch| - 1 then
      Step(s.(currentIndex := s.currentIndex + 1, isFlipped := false), None, false)
    else
      Step(s, None, true)
  }

  /** `handleResponse(success)`: with a current note, reports its id and the
      outcome exactly once, marks it studied and advances; without one it
      does nothing. */
  function Respond(batch: seq<Note>, s: State, success: bool): (r: Step)
    ensures s.currentIndex >= |batch| ==> r == Step(s, None, false)
    ensures s.currentIndex < |batch| ==>
      r.report == Some(Report(batch[s.currentIndex].id, success)) &&
      r.state.studiedNotes == s.studiedNotes + {batch[s.currentIndex].id}
    ensures s.currentIndex + 1 < |batch| ==>
      !r.finished && r.state.currentIndex == s.currentIndex + 1 && !r.state.isFlipped
    ensures s.currentIndex + 1 == |batch| ==>
      r.finished && r.state.currentIndex == s.currentIndex && r.state.isFlipped == s.isFlipped
  {
    match CurrentNote(batch, s)
    case None => Step(s, None, false)
    case Some(note) =>
      var marked := s.(studiedNotes := s.studiedNotes + {note.id});
      var next := Advance(batch, marked);
      Step(next.state, Some(Report(note.id, success)), next.finished)
  }

  /** `handleSkip`: advances without reporting and without marking anything
      studied. */
  function Skip(batch: seq<Note>, s: State): (r: Step)
    ensures r.report == None && r.state.studiedNotes == s.studiedNotes
    ensures s.currentIndex + 1 < |batch| ==>
      !r.finished && r.state.currentIndex == s.currentIndex + 1 && !r.state.isFlipped
    ensures s.currentIndex + 1 >= |batch| ==> r.finished && r.state == s
  {
    Advance(batch, s)
  }

  /** A user action on the session screen. */
  datatype Event = FlipCard | Answer(success: bool) | SkipCard

  /** The handler an event triggers. */
  function Apply(batch: seq<Note>, s: State, e: Event): Step
  {
    match e
    case FlipCard => Step(Flip(s), None, false)
    case Answer(success) => Respond(batch, s, success)
    case SkipCard => Skip(batch, s)
  }

  /** Every handler keeps the session invariant. */
  lemma ApplyKeepsInv(batch: seq<Note>, s: State, e: Event)
    requires Inv(batch, s)
    ensures Inv(batch, Apply(batch, s, e).state)
  {
    var t := Apply(batch, s, e).state;
    forall id | id in t.studiedNotes
      ensures exists j :: 0 <= j <= t.currentIndex && j < |batch| && batch[j].id == id
    {
      if id in s.studiedNotes {
        var j :| 0 <= j <= s.currentIndex && j < |batch| && batch[j].id == id;
        assert t.currentIndex >= s.currentIndex;
      } else {
        assert batch[s.currentIndex].id == id;
      }
    }
  }

  /** The result of a sequence of events: the final state, the outcomes
      reported in order, and how many times `onFinish` was called. */
  datatype Trace = Trace(state: State, reports: seq<Report>, finishes: nat)

  function Run(batch: seq<Note>, s: State, events: seq<Event>): Trace
    decreases |events|
  {
    if events == [] then Trace(s, [], 0)
    else
      var step := Apply(batch, s, events[0]);
      var rest := Run(batch, step.state, events[1..]);
      Trace(rest.state,
            (if step.report.Some? then [step.report.value] else []) + rest.reports,
            (if step.finished then 1 else 0) + rest.finishes)
  }

  /** The number of answers in a sequence of events. */
  function Answers(events: seq<Event>): nat
  {
    if events == [] then 0 else (if events[0].Answer? then 1 else 0) + Answers(events[1..])
  }

  /** After any sequence of events from a valid state, and in particular from
      the state the batch resets to, the invariant holds: the index addresses
      the batch and only visited notes are marked studied. */
  lemma {:induction false} RunKeepsInv(batch: seq<Note>, s: State, events: seq<Event>)
    requires Inv(batch, s)
    ensures Inv(batch, Run(batch, s, events).state)
    decreases |events|
  {
    if events != [] {
      ApplyKeepsInv(batch, s, events[0]);
      RunKeepsInv(batch, Apply(batch, s, events[0]).state, events[1..]);
    }
  }

  /** From the state a batch resets to, the invariant holds after any
      sequence of events. */
  lemma FromResetKeepsInv(batch: seq<Note>, events: seq<Event>)
    ensures Inv(batch, Run(batch, Initial(), events).state)
  {
    RunKeepsInv(batch, Initial(), events);
  }

  /** Every outcome reported comes from an answer, and the studied set grows
      by exactly the reported ids. */
  lemma {:induction false} RunReports(batch: seq<Note>, s: State, events: seq<Event>)
    ensures |Run(batch, s, events).reports| <= Answers(events)
    ensures Run(batch, s, events).state.studiedNotes ==
      s.studiedNotes + set r | r in Run(batch, s, events).reports :: r.id
    decreases |events|
  {
    if events != [] {
      var step := Apply(batch, s, events[0]);
      RunReports(batch, step.state, events[1..]);
      var rest := Run(batch, step.state, events[1..]);
      var head := if step.report.Some? then [step.report.value] else [];
      assert (set r | r in head + rest.reports :: r.id) ==
        (set r | r in head :: r.id) + (set r | r in rest.reports :: r.id);
    }
  }

  /** Flipping and skipping never report an outcome and never mark a note
      studied. */
  lemma {:induction false} NoAnswerNoReport(batch: seq<Note>, s: State, events: seq<Event>)
    requires forall i :: 0 <= i < |events| ==> !events[i].Answer?
    ensures Run(batch, s, events).reports == []
    ensures Run(batch, s, events).state.studiedNotes == s.studiedNotes
    decreases |events|
  {
    if events != [] {
      NoAnswerNoReport(batch, Apply(batch, s, events[0]).state, events[1..]);
    }
  }

  /** An empty batch never reports an outcome, whatever the user does. */
  lemma {:induction false} EmptyBatchReportsNothing(s: State, events: seq<Event>)
    ensures Run([], s, events).reports == []
    ensures Run([], s, events).state.studiedNotes == s.studiedNotes
    decreases |events|
  {
    if events != [] {
      EmptyBatchReportsNothing(Apply([], s, events[0]).state, events[1..]);
    }
  }

  /** What the component renders. */
  datatype Screen =
    | NothingToStudy                                  // the empty-batch branch
    | Complete(reviewed: nat)                         // no current note
    | Card(note: Note, position: nat, total: nat, revealed: bool)

  /** The render branches: the empty batch first, then a missing current
      note, then the card (its answer and the response buttons shown only
      when flipped). Under the invariant the second branch is unreachable. */
  function View(batch: seq<Note>, s: State): (r: Screen)
    ensures |batch| == 0 <==> r == NothingToStudy
    ensures r.Card? <==> 0 < |batch| && s.currentIndex < |batch|
    ensures r.Card? ==>
      (r.note == batch[s.currentIndex] && r.position == s.currentIndex + 1 &&
       r.total == |batch| && r.revealed == s.isFlipped)
  {
    if |batch| == 0 then NothingToStudy
    else match CurrentNote(batch, s)
      case None => Complete(|s.studiedNotes|)
      case Some(note) => Card(note, s.currentIndex + 1, |batch|, s.isFlipped)
  }

  /** With the invariant, a non-empty batch always shows a card. */
  lemma ViewShowsCard(batch: seq<Note>, s: State)
    requires Inv(batch, s) && |batch| > 0
    ensures View(batch, s).Card?
  {
  }

  /** The component instance: its batch prop and its three state variables. */
  class Session {
    var batch: seq<Note>
    var currentIndex: nat
    var isFlipped: bool
    var studiedNotes: set<string>

    function Current(): State
      reads this
    {
      State(currentIndex, isFlipped, studiedNotes)
    }

    ghost predicate Valid()
      reads this
    {
      Inv(batch, Current())
    }

    /** Mounting with a batch. */
    constructor (notes: seq<Note>)
      ensures Valid() && batch == notes && Current() == Initial()
    {
      batch := notes;
      currentIndex := 0;
      isFlipped := false;
      studiedNotes := {};
    }

    /** The reset effect, run when the batch changes. */
    method Reset(notes: seq<Note>)
      modifies this
      ensures Valid() && batch == notes && Current() == Initial()
    {
      batch := notes;
      currentIndex := 0;
      isFlipped := false;
      studiedNotes := {};
    }

    method HandleFlip()
      requires Valid()
      modifies this
      ensures Valid() && batch == old(batch)
      ensures Current() == Flip(old(Current()))
    {
      isFlipped := !isFlipped;
    }

    /** Returns the outcome reported through `onStudyComplete` and whether
      `onFinish` was called. */
    method HandleResponse(success: bool) returns (report: Option<Report>, finished: bool)
      requires Valid()
      modifies this
      ensures Valid() && batch == old(batch)
      ensures Step(Current(), report, finished) == Respond(batch, old(Current()), success)
    {
      ghost var before := Current();
      if currentIndex >= |batch| {
        return None, false;
      }
      var note := batch[currentIndex];
      report := Some(Report(note.id, success));
      studiedNotes := studiedNotes + {note.id};
      if currentIndex < |batch| - 1 {
        currentIndex := currentIndex + 1;
        isFlipped := false;
        finished := false;
      } else {
        finished := true;
      }
      ApplyKeepsInv(batch, before, Answer(success));
    }

    /** Returns whether `onFinish` was called. */
    method HandleSkip() returns (finished: bool)
      requires Valid()
      modifies this
      ensures Valid() && batch == old(batch)
      ensures Step(Current(), None, finished) == Skip(batch, old(Current()))
    {
      if currentIndex < |batch| - 1 {
        currentIndex := currentIndex + 1;
        isFlipped := false;
        finished := false;
      } else {
        finished := true;
      }
    }
  }
}
