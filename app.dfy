/**
 * The note-list controller of the `App` component: its five pieces of
 * state, the `'notes'` slot of local storage it writes, and the handlers
 * that change them. Each handler is one atomic step, as a click or a key
 * press is in the browser.
 */
module NoteApp {
  import JsString
  import opened Notes
  import opened StableSort
  import opened NoteOrder

  /**
   * A draft the add handler accepts: neither title nor text is blank once
   * trimmed, that is, each holds a character other than whitespace.
   */
  predicate Submittable(draft: Note)
    ensures Submittable(draft) <==>
              (exists i :: 0 <= i < |draft.title| && !JsString.IsWhiteSpace(draft.title[i])) &&
              (exists i :: 0 <= i < |draft.text| && !JsString.IsWhiteSpace(draft.text[i]))
  {
    JsString.Trim(draft.title) != "" && JsString.Trim(draft.text) != ""
  }

  class App {
    var notes: seq<Note>
    var isAddNote: bool
    var isEditNote: bool
    var newNote: Note
    var editedNote: Note
    /** The `'notes'` slot of local storage: the list last written there. */
    ghost var stored: seq<Note>

    /**
     * The add form and the edit form are never open together, and neither
     * draft carries an edit stamp. Every reachable state satisfies this.
     */
    ghost predicate Valid()
      reads this
    {
      && !(isAddNote && isEditNote)
      && newNote.editData == None
      && editedNote.editData == None
    }

    /**
     * The first render followed by the mount effect, which reads the stored
     * list into `notes` (a missing slot reads as the empty list).
     */
    constructor (saved: seq<Note>)
      ensures Valid()
      ensures notes == saved && stored == saved
      ensures !isAddNote && !isEditNote
      ensures newNote == BlankDraft && editedNote == BlankDraft
    {
      notes := saved;
      stored := saved;
      isAddNote, isEditNote := false, false;
      newNote, editedNote := BlankDraft, BlankDraft;
    }

    /** The header button: toggles the add form and closes the edit form. */
    method OpenFromAddNote()
      requires Valid()
      modifies this
      ensures Valid()
      ensures isAddNote == !old(isAddNote) && !isEditNote
      ensures notes == old(notes) && stored == old(stored)
      ensures newNote == old(newNote) && editedNote == old(editedNote)
    {
      isAddNote := !isAddNote;
      isEditNote := false;
    }

    /** Typing into the title field of the add form. */
    method SetNewTitle(value: string)
      requires Valid()
      modifies this
      ensures Valid()
      ensures newNote == old(newNote).(title := value)
      ensures notes == old(notes) && stored == old(stored) && editedNote == old(editedNote)
      ensures isAddNote == old(isAddNote) && isEditNote == old(isEditNote)
    {
      newNote := newNote.(title := value);
    }

    /** Typing into the text field of the add form. */
    method SetNewText(value: string)
      requires Valid()
      modifies this
      ensures Valid()
      ensures newNote == old(newNote).(text := value)
      ensures notes == old(notes) && stored == old(stored) && editedNote == old(editedNote)
      ensures isAddNote == old(isAddNote) && isEditNote == old(isEditNote)
    {
      newNote := newNote.(text := value);
    }

    /** Typing into the title field of the edit form. */
    method SetEditedTitle(value: string)
      requires Valid()
      modifies this
      ensures Valid()
      ensures editedNote == old(editedNote).(title := value)
      ensures notes == old(notes) && stored == old(stored) && newNote == old(newNote)
      ensures isAddNote == old(isAddNote) && isEditNote == old(isEditNote)
    {
      editedNote := editedNote.(title := value);
    }

    /** Typing into the text field of the edit form. */
    method SetEditedText(value: string)
      requires Valid()
      modifies this
      ensures Valid()
      ensures editedNote == old(editedNote).(text := value)
      ensures notes == old(notes) && stored == old(stored) && newNote == old(newNote)
      ensures isAddNote == old(isAddNote) && isEditNote == old(isEditNote)
    {
      editedNote := editedNote.(text := value);
    }

    /**
     * Submitting the add form, with `freshId` the id the generator returns
     * and `now` the formatted current time. A blank draft changes nothing
     * but closes the form. Otherwise the new note, carrying the draft's
     * title and text as typed, goes first; the list is written to storage
     * and the draft is cleared. A fresh id keeps the ids unique.
     */
    method HandleAddNote(freshId: string, now: string)
      requires Valid()
      modifies this
      ensures Valid()
      ensures !isAddNote && isEditNote == old(isEditNote) && editedNote == old(editedNote)
      ensures !Submittable(old(newNote)) ==>
                notes == old(notes) && stored == old(stored) && newNote == old(newNote)
      ensures Submittable(old(newNote)) ==>
                && notes == [Note(freshId, old(newNote).title, old(newNote).text, now, None)] + old(notes)
                && |notes| == |old(notes)| + 1
                && stored == notes
                && newNote == BlankDraft
      ensures Submittable(old(newNote)) && UniqueIds(old(notes)) && !HasId(old(notes), freshId) ==>
                UniqueIds(notes)
    {
      if Submittable(newNote) {
        var updated := [newNote.(id := freshId, createDate := now)] + notes;
        notes := updated;
        stored := updated;
        newNote := BlankDraft;
      }
      isAddNote := false;
    }

    /**
     * The edit button of a note: closes the add form and, when a note
     * carries `id`, opens the edit form on a copy of the first such note
     * without its edit stamp.
     */
    method HandleEditNote(id: string)
      requires Valid()
      modifies this
      ensures Valid()
      ensures !isAddNote
      ensures HasId(old(notes), id) ==>
                var n := FindById(old(notes), id).value;
                isEditNote && editedNote == Note(n.id, n.title, n.text, n.createDate, None)
      ensures !HasId(old(notes), id) ==>
                isEditNote == old(isEditNote) && editedNote == old(editedNote)
      ensures notes == old(notes) && stored == old(stored) && newNote == old(newNote)
    {
      isAddNote := false;
      var found := FindById(notes, id);
      if found.Some? {
        var n := found.value;
        isEditNote := true;
        editedNote := Note(n.id, n.title, n.text, n.createDate, None);
      }
    }

    /**
     * The save button of the edit form, with `now` the formatted current
     * time: every note carrying the draft's id becomes the draft stamped
     * with `now`, the list is written to storage, the form closes and its
     * draft is cleared. Ids stay where they were, so unique ids stay
     * unique (`ReplaceKeepsCreateDates` and `ReplaceAbsentUnchanged` say
     * what else the update keeps).
     */
    method HandleUpdateNote(now: string)
      requires Valid()
      modifies this
      ensures Valid()
      ensures notes == ReplaceById(old(notes), old(editedNote), now)
      ensures stored == notes
      ensures !isEditNote && editedNote == BlankDraft
      ensures isAddNote == old(isAddNote) && newNote == old(newNote)
      ensures UniqueIds(old(notes)) ==> UniqueIds(notes)
    {
      ghost var s, draft := notes, editedNote;
      var updated := ReplaceById(notes, editedNote, now);
      notes := updated;
      stored := updated;
      isEditNote := false;
      editedNote := BlankDraft;
      ReplaceKeepsUniqueIds(s, draft, now);
    }

    /**
     * The delete button of a note: drops every note carrying `id` and writes
     * the list to storage. With unique ids a present id costs exactly one
     * note; an absent one costs none.
     */
    method HandleDeleteNote(id: string)
      requires Valid()
      modifies this
      ensures Valid()
      ensures notes == RemoveById(old(notes), id)
      ensures stored == notes
      ensures UniqueIds(old(notes)) && HasId(old(notes), id) ==> |notes| == |old(notes)| - 1
      ensures UniqueIds(old(notes)) ==> UniqueIds(notes)
      ensures isAddNote == old(isAddNote) && isEditNote == old(isEditNote)
      ensures newNote == old(newNote) && editedNote == old(editedNote)
    {
      var updated := RemoveById(notes, id);
      if UniqueIds(notes) {
        SubsequenceKeepsUniqueIds(updated, notes);
        if HasId(notes, id) {
          CountUniqueId(notes, id);
        }
      }
      notes := updated;
      stored := updated;
    }

    /**
     * A sort button (`handleSort` passes its option straight on): sorts a
     * copy of the list in place, reverses it for the two date orders, and
     * shows it. Storage is not written, so it keeps the order it had.
     */
    method SortNotes(option: string, collate: (string, string) -> int, parse: string -> int)
      requires Valid()
      modifies this
      ensures Valid()
      ensures notes == SortResult(option, old(notes), collate, parse)
      ensures stored == old(stored)
      ensures UniqueIds(old(notes)) ==> UniqueIds(notes)
      ensures isAddNote == old(isAddNote) && isEditNote == old(isEditNote)
      ensures newNote == old(newNote) && editedNote == old(editedNote)
    {
      var copy := new Note[|notes|](i requires 0 <= i < |notes| reads this => notes[i]);
      assert copy[..] == notes;
      if option == "title" {
        SortInPlace(copy, TitleOrder(collate));
      } else if option == "createDate" {
        SortInPlace(copy, CreateDateOrder(parse));
        ReverseInPlace(copy);
      } else if option == "editDate" {
        SortInPlace(copy, EditDateOrder(parse));
        ReverseInPlace(copy);
      }
      if UniqueIds(notes) {
        PermutationKeepsUniqueIds(notes, copy[..]);
      }
      notes := copy[..];
    }

    /** The cancel button of the edit form. */
    method CancelEdit()
      requires Valid()
      modifies this
      ensures Valid()
      ensures !isEditNote
      ensures isAddNote == old(isAddNote) && editedNote == old(editedNote) && newNote == old(newNote)
      ensures notes == old(notes) && stored == old(stored)
    {
      isEditNote := false;
    }
  }

  /**
   * Opening the edit form on a note and saving it without typing: with
   * unique ids, only that note changes, and only in its edit stamp, which
   * becomes the save time; every creation date and every id stays where
   * it was.
   */
  method EditThenSave(app: App, id: string, now: string)
    requires app.Valid() && UniqueIds(app.notes) && HasId(app.notes, id)
    modifies app
    ensures app.Valid() && !app.isEditNote
    ensures |app.notes| == |old(app.notes)| && UniqueIds(app.notes)
    ensures forall i :: 0 <= i < |app.notes| ==>
              app.notes[i].createDate == old(app.notes)[i].createDate && app.notes[i].id == old(app.notes)[i].id
    ensures forall i :: 0 <= i < |app.notes| && old(app.notes)[i].id == id ==>
              app.notes[i] == old(app.notes)[i].(editData := Some(now))
    ensures forall i :: 0 <= i < |app.notes| && old(app.notes)[i].id != id ==> app.notes[i] == old(app.notes)[i]
    ensures app.stored == app.notes
  {
    ghost var s := app.notes;
    app.HandleEditNote(id);
    assert app.editedNote == FindById(s, id).value.(editData := None);
    ReplaceWithFound(s, id, now);
    app.HandleUpdateNote(now);
  }

  lemma TwoNotesByTitle(a: Note, b: Note, collate: (string, string) -> int, parse: string -> int)
    requires collate(b.title, a.title) > 0
    ensures SortResult("title", [b, a], collate, parse) == [a, b]
  {
    assert [b, a][..1] == [b] && [b][..0] == [];
    assert Sort([b], TitleOrder(collate)) == [b];
  }

  lemma DeleteFirstOfTwo(a: Note, b: Note)
    requires a.id != b.id
    ensures RemoveById([a, b], a.id) == [b]
  {
    assert [a, b][1..] == [b] && [b][1..] == [];
  }

  lemma ShortDraftSubmittable(d: Note)
    requires |d.title| == 1 && !JsString.IsWhiteSpace(d.title[0])
    requires |d.text| == 1 && !JsString.IsWhiteSpace(d.text[0])
    ensures Submittable(d)
  {
  }

  /**
   * Opening the add form, typing a one-character title and text, and
   * submitting: the new note goes first and is written to storage.
   */
  method AddThroughForm(app: App, id: string, title: string, text: string, time: string)
    requires app.Valid()
    requires |title| == 1 && !JsString.IsWhiteSpace(title[0])
    requires |text| == 1 && !JsString.IsWhiteSpace(text[0])
    modifies app
    ensures app.Valid()
    ensures app.notes == [Note(id, title, text, time, None)] + old(app.notes)
    ensures app.stored == app.notes
  {
    app.OpenFromAddNote();
    app.SetNewTitle(title);
    app.SetNewText(text);
    ShortDraftSubmittable(app.newNote);
    app.HandleAddNote(id, time);
  }

  /**
   * Start empty, add "A" then "B", sort by title, delete "A": the list goes
   * from [B, A] to [A, B] to [B], given a collation that puts "A" first.
   */
  method AddSortDeleteScenario(collate: (string, string) -> int, parse: string -> int,
                               idA: string, idB: string, timeA: string, timeB: string)
    returns (afterAdds: seq<Note>, afterSort: seq<Note>, afterDelete: seq<Note>)
    requires collate("B", "A") > 0
    requires idA != idB
    ensures afterAdds == [Note(idB, "B", "y", timeB, None), Note(idA, "A", "x", timeA, None)]
    ensures afterSort == [Note(idA, "A", "x", timeA, None), Note(idB, "B", "y", timeB, None)]
    ensures afterDelete == [Note(idB, "B", "y", timeB, None)]
  {
    var a, b := Note(idA, "A", "x", timeA, None), Note(idB, "B", "y", timeB, None);
    var app := new App([]);
    AddThroughForm(app, idA, "A", "x", timeA);
    AddThroughForm(app, idB, "B", "y", timeB);
    afterAdds := app.notes;
    assert afterAdds == [b, a];
    TwoNotesByTitle(a, b, collate, parse);
    app.SortNotes("title", collate, parse);
    afterSort := app.notes;
    DeleteFirstOfTwo(a, b);
    app.HandleDeleteNote(idA);
    afterDelete := app.notes;
  }
}
