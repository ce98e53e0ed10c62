/** The note editor form of `src/components/NoteModal.jsx`: the form fields,
    the tag-input box, the submit guard, and the tag list's add and remove
    handlers. The list each handler builds is given by a function
    (`AddedTags`, `RemovedTags`), and the `NoteForm` class's handlers are
    proved to install exactly that list. */
module NoteModal {
  import opened Util
  import opened Text
  import opened Notes

  /** The form's `formData` state. */
  datatype FormData = FormData(title: string, description: string, tags: seq<string>)

  /** The form's starting contents: the edited note's fields, or empty
      fields and no tags for a new note. */
  function InitialForm(note: Option<Note>): (f: FormData)
    ensures note.None? ==> f.title == [] && f.description == [] && f.tags == []
    ensures note.Some? ==>
      f.title == note.value.title && f.description == note.value.description &&
      f.tags == note.value.tags
  {
    match note
    case None => FormData("", "", [])
    case Some(n) => FormData(n.title, n.description, n.tags)
  }

  /** The submit guard, shared by `handleSubmit` and the submit button's
      `disabled` attribute: both trimmed fields are non-empty, that is,
      each field has a character that is not a space. */
  predicate CanSubmit(f: FormData)
    ensures CanSubmit(f) <==> !AllSpace(f.title) && !AllSpace(f.description)
  {
    Trim(f.title) != [] && Trim(f.description) != []
  }

  /** `handleSubmit`: the data passed to `onSave`, or `None` when the guard
      fails and `onSave` is not called. */
  function Submit(f: FormData): (r: Option<FormData>)
    ensures r.Some? <==> CanSubmit(f)
    ensures r.Some? ==> r.value == f
  {
    if CanSubmit(f) then Some(f) else None
  }

  /** A form whose title is all spaces is never saved, whatever the rest. */
  lemma BlankTitleNotSaved(f: FormData)
    requires AllSpace(f.title)
    ensures Submit(f) == None
  {
  }

  /** The tag `handleAddTag` takes from the input box: its trimmed text, if
      that is non-empty and not yet in the list. */
  function NewTag(tags: seq<string>, input: string): (r: Option<string>)
    ensures r.Some? <==> !AllSpace(input) && Trim(input) !in tags
    ensures r.Some? ==> r.value == Trim(input)
  {
    var tag := Trim(input);
    if tag != [] && tag !in tags then Some(tag) else None
  }

  /** The list `handleAddTag` installs: the old list, with the new tag (if
      any) at the end. A duplicate-free list stays duplicate-free. */
  function AddedTags(tags: seq<string>, input: string): (r: seq<string>)
    ensures NewTag(tags, input).None? ==> r == tags
    ensures NewTag(tags, input).Some? ==> r == tags + [NewTag(tags, input).value]
    ensures forall t :: t in r <==> t in tags || NewTag(tags, input) == Some(t)
    ensures NoDuplicates(tags) ==> NoDuplicates(r)
  {
    match NewTag(tags, input)
    case None => tags
    case Some(tag) => tags + [tag]
  }

  /** The list `handleRemoveTag(t)` installs: every occurrence of `t`
      removed, the others in order. */
  function RemovedTags(tags: seq<string>, t: string): (r: seq<string>)
    ensures forall x :: x in r <==> x in tags && x != t
    ensures IsSubsequence(r, tags)
    ensures t !in tags ==> r == tags
    ensures NoDuplicates(tags) ==> NoDuplicates(r)
    ensures forall x :: multiset(r)[x] == if x != t then multiset(tags)[x] else 0
  {
    var keep := (x: string) => x != t;
    RemoveFacts(tags, t, keep);
    FilterCount(tags, keep);
    Filter(tags, keep)
  }

  lemma RemoveFacts(tags: seq<string>, t: string, keep: string -> bool)
    requires forall x :: keep(x) <==> x != t
    ensures t !in tags ==> Filter(tags, keep) == tags
    ensures NoDuplicates(tags) ==> NoDuplicates(Filter(tags, keep))
  {
    if t !in tags {
      FilterAll(tags, keep);
    }
    if NoDuplicates(tags) {
      FilterNoDuplicates(tags, keep);
    }
  }

  /** Removing a tag just added gives back the list before. */
  lemma AddThenRemove(tags: seq<string>, input: string)
    requires NewTag(tags, input).Some?
    ensures RemovedTags(AddedTags(tags, input), Trim(input)) == tags
  {
    var tag := Trim(input);
    var p := (x: string) => x != tag;
    FilterAppend(tags, [tag], p);
    FilterAll(tags, p);
  }

  /** The form's state: `formData` and the tag-input box. */
  class NoteForm {
    var formData: FormData
    var tagInput: string

    /** Opening the form on an existing note or on a new one. */
    constructor (note: Option<Note>)
      ensures formData == InitialForm(note) && tagInput == []
    {
      formData := InitialForm(note);
      tagInput := "";
    }

    /** The title input's `onChange`: the tags are untouched. */
    method SetTitle(title: string)
      modifies this
      ensures formData == old(formData).(title := title) && tagInput == old(tagInput)
    {
      formData := formData.(title := title);
    }

    /** The description input's `onChange`: the tags are untouched. */
    method SetDescription(description: string)
      modifies this
      ensures formData == old(formData).(description := description) && tagInput == old(tagInput)
    {
      formData := formData.(description := description);
    }

    /** The tag-input box's `onChange`. */
    method SetTagInput(input: string)
      modifies this
      ensures formData == old(formData) && tagInput == input
    {
      tagInput := input;
    }

    /** `handleAddTag`: appends the trimmed input if it is a new tag, and
      then, only then, clears the input box. */
    method HandleAddTag()
      modifies this
      ensures formData == old(formData).(tags := AddedTags(old(formData.tags), old(tagInput)))
      ensures NewTag(old(formData.tags), old(tagInput)).Some? ==> tagInput == []
      ensures NewTag(old(formData.tags), old(tagInput)).None? ==> tagInput == old(tagInput)
    {
      var tag := Trim(tagInput);
      if tag != [] && tag !in formData.tags {
        formData := formData.(tags := formData.tags + [tag]);
        tagInput := "";
      }
    }

    /** `handleRemoveTag(t)`. */
    method HandleRemoveTag(t: string)
      modifies this
      ensures formData == old(formData).(tags := RemovedTags(old(formData.tags), t))
      ensures tagInput == old(tagInput)
    {
      formData := formData.(tags := RemovedTags(formData.tags, t));
    }

    /** `handleSubmit`: returns what `onSave` receives, if it is called. */
    method HandleSubmit() returns (saved: Option<FormData>)
      ensures saved == Submit(formData)
    {
      if Trim(formData.title) == [] || Trim(formData.description) == [] {
        return None;
      }
      saved := Some(formData);
    }
  }
}
