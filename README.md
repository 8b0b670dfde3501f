# Note list controller — Dafny model

This project models the note-taking single-page app, whose whole logic sits in the `App`
component of `src/App.tsx`. The component holds five pieces of state:

- the list of notes;
- the flags for the add form and the edit form;
- the two drafts those forms edit.

Its event handlers add, edit, update, delete and sort notes. Every change to the list except
a sort is written through to the `'notes'` slot of the browser's local storage.

The model has five modules:

- `JsString` (js_string.dfy) is JavaScript's `String.prototype.trim`. It removes the
  ECMAScript WhiteSpace and LineTerminator characters from both ends.
- `Notes` (notes.dfy) holds the `Note` record and the three list transforms the handlers
  apply: `find` by id, the `map` that replaces the edited note, and the `filter` that deletes
  one.
- `StableSort` (stable_sort.dfy) covers `Array.prototype.sort` and `reverse`.
  - A stable insertion sort runs in place on an `array`. It is proved equal to a functional
    insertion sort, `Sort`.
  - `Sort` is proved to be sorted, stable and a permutation.
  - Any other list that is sorted and stable is proved to equal it. So every stable sort gives
    the same result under a consistent comparator, which is what the engine's stable sort
    (ECMAScript 2019 onwards) guarantees.
  - An in-place reversal is proved equal to `Reversed`.
- `NoteOrder` (note_order.dfy) holds the three comparators behind the sort buttons, with what
  each finished sort leaves.
- `NoteApp` (app.dfy) models the component as the class `App`.
  - Its fields are the five pieces of state, plus a ghost field `stored` for the storage slot.
  - It has one method per handler. Each handler is one atomic step, as a click or key press is.
  - `Valid()` states that the two forms are never open together and that neither draft ever
    carries an edit stamp. Every handler keeps it.

Some operations depend on the browser, so they are parameters of the model:

- `uuid()` is the parameter `freshId` of `HandleAddNote`.
- The formatted current date is the parameter `now`.
- `localeCompare` is a collation `collate`. The order lemmas require it to be consistent:
  antisymmetric and transitive.
- `new Date(s).getTime()` is a function `parse` from strings to integers.

What the code does in the places where a reader might expect otherwise:

- Sorting is not persisted. `sortNotes` only calls `setNotes` (src/App.tsx:122), so
  `SortNotes` ensures `stored == old(stored)`.
- The creation-date sort leaves the oldest note first. The comparator sorts newest first, and
  `.reverse()` follows it (src/App.tsx:109). Notes created at the same moment come out in the
  reverse of their earlier order (`CreateDateSortOldestFirst`).
- The edit-date sort leaves the notes never edited first, then the edited ones, oldest edit
  first. This is because `.reverse()` follows the comparator (src/App.tsx:117;
  `EditDateSortUneditedFirst`).
- An unreadable storage slot makes `JSON.parse` throw at mount (src/App.tsx:22). The model
  starts from a list already read; see "Left out".
- The edit stamp field is named `editData`. A note counts as edited when that field is
  truthy, which means present and non-empty (`IsEdited`).

## Model

| member | source | states |
|---|---|---|
| JsString.Trim | src/App.tsx:49 | `trim()` gives the empty string exactly when the input is all whitespace. Otherwise it gives the slice starting at the first non-whitespace character and ending at the last one, with only whitespace outside that slice. |
| Notes.FindById | src/App.tsx:67 | `find` gives nothing exactly when no note carries the id. Otherwise it gives a note that carries the id and has no note with that id before it. |
| Notes.FindByIdUnique | src/App.tsx:67 | With unique ids, `find` on a note's id gives that very note. |
| Notes.ReplaceById | src/App.tsx:87-89 | The `map` keeps the length. Every note carrying the draft's id becomes the draft with the new `editData`, and every other note is left as it was. |
| Notes.ReplaceKeepsUniqueIds | src/App.tsx:87-89 | The update keeps unique ids unique. |
| Notes.ReplaceAbsentUnchanged | src/App.tsx:87-89 | An update whose draft id matches no note leaves the list unchanged. |
| Notes.ReplaceKeepsCreateDates | src/App.tsx:87-89 | When the draft carries the creation date of the notes it replaces, every creation date survives the update. |
| Notes.ReplaceWithFound | src/App.tsx:67-89 | With unique ids, saving a draft copied unchanged from the note `find` returns changes that note only in its `editData`, which becomes the save time. |
| Notes.CountId | src/App.tsx:97 | The number of notes carrying an id is zero exactly when no note carries it. |
| Notes.RemoveById | src/App.tsx:97 | The `filter` keeps an in-order subsequence of the list. No note left carries the id, and exactly the notes that carried it are gone. A missing id leaves the list unchanged. |
| Notes.SubsequenceMembers | src/App.tsx:97 | Every note left after a delete was in the list. |
| Notes.SubsequenceKeepsUniqueIds | src/App.tsx:97 | A delete keeps unique ids unique. |
| Notes.CountUniqueId | src/App.tsx:96-99 | With unique ids, a present id is carried by exactly one note, so deleting it removes exactly one note. |
| Notes.PermutationKeepsUniqueIds | src/App.tsx:103-122 | A reordering of the list, as every sort is, keeps unique ids unique. |
| StableSort.Sort | src/App.tsx:106 | The reference stable sort is a permutation of its input. |
| StableSort.InsertSorted | src/App.tsx:106 | Inserting into a sorted list under a consistent comparator keeps it sorted. |
| StableSort.SortSorted | src/App.tsx:106 | Under a consistent comparator, the reference sort's output is sorted. |
| StableSort.TiesInsert | src/App.tsx:106 | Inserting an element appends it to the end of its class of equally ranked elements. |
| StableSort.SortStable | src/App.tsx:106 | The sort is stable: elements the comparator ranks equal keep their relative order. |
| StableSort.SortedStableUnique | src/App.tsx:106 | Two lists that are both sorted and keep the same relative order within every class of equal elements are equal. |
| StableSort.LastTiesItself | src/App.tsx:106 | Under a consistent comparator, the last element of a non-empty list belongs to its own class of equally ranked elements. |
| StableSort.SameLast | src/App.tsx:106 | Two non-empty sorted lists with the same classes of equally ranked elements end in the same element. |
| StableSort.SameTiesBefore | src/App.tsx:106 | Dropping a shared last element from two lists with the same classes of equally ranked elements keeps those classes equal. |
| StableSort.SortIsTheStableSort | src/App.tsx:106 | Any sorted, stable rearrangement of a list equals the reference sort, so every stable sort gives the same result. |
| StableSort.Reversed | src/App.tsx:109 | `reverse` puts element `k` at position `n - 1 - k` and is a permutation. |
| StableSort.TiesReversed | src/App.tsx:109 | Reversing a list reverses the order inside every class of equally ranked elements. |
| StableSort.InsertInPlace | src/App.tsx:106 | One pass of the in-place insertion moves element `i` into place in the sorted prefix and leaves the rest of the array alone. |
| StableSort.ShiftStep | src/App.tsx:106 | Each step of the in-place insertion moves the inserted element one place left and the element it passes one place right. |
| StableSort.SortInPlace | src/App.tsx:106 | Sorting the array in place leaves exactly the reference stable sort of its old contents. |
| StableSort.ReverseInPlace | src/App.tsx:109 | Reversing the array in place leaves exactly the reverse of its old contents. |
| StableSort.ReversedPointwise | src/App.tsx:109 | A list holding the elements of another back to front is its reverse. |
| NoteOrder.SortResult | src/App.tsx:102-123 | Every sort option gives a permutation of the list, and an option that matches none of the three cases leaves the list unchanged. |
| NoteOrder.LiftConsistent | src/App.tsx:106 | Comparing notes by a consistent collation of their titles is a consistent comparator. |
| NoteOrder.CreateDateOrderConsistent | src/App.tsx:109 | Subtracting integer timestamps is a consistent comparator, whatever the timestamps are. |
| NoteOrder.EditDateOrderConsistent | src/App.tsx:112-117 | The four-case edit-date comparator is consistent, whatever the timestamps are. |
| NoteOrder.EditDateTiesOfUnedited | src/App.tsx:113-115 | The edit-date comparator ranks a note equal to a never-edited note exactly when it is never edited itself. |
| NoteOrder.TitleSortOrdered | src/App.tsx:106 | After a title sort, titles are in non-decreasing collation order and notes with equally ranked titles keep their order. |
| NoteOrder.CreateDateSortOldestFirst | src/App.tsx:109 | After a creation-date sort, creation times are non-decreasing (oldest first), and notes created at the same time come out in reverse of their earlier order. |
| NoteOrder.EditDateSortUneditedFirst | src/App.tsx:112-117 | After an edit-date sort, every never-edited note comes before every edited one, edited notes are in non-decreasing edit time, and equally ranked notes come out in reverse of their earlier order. |
| Notes.IsEdited | src/App.tsx:113-115 | A note counts as edited exactly when its `editData` is present and non-empty, which is when `!note.editData` is false. |
| Notes.Stamped | src/App.tsx:88 | The saved note keeps the draft's id, and it counts as edited for the edit-date sort exactly when the save time is a non-empty string. |
| NoteOrder.TitleOrder | src/App.tsx:106 | Two notes rank as their titles collate, so a consistent collation gives a consistent comparator of notes, the premise of the stable-sort lemmas. |
| NoteOrder.CreateDateOrder | src/App.tsx:109 | A note created later ranks first, and notes created at the same time rank equal. |
| NoteOrder.EditDateOrder | src/App.tsx:112-116 | An edited note ranks before an unedited one, all unedited notes rank equal, and among edited notes the later edit ranks first. |
| NoteOrder.SortByTitle | src/App.tsx:105-107 | The `'title'` case rearranges the list without losing or adding notes. `TitleSortOrdered` gives its order. |
| NoteOrder.SortByCreateDate | src/App.tsx:108-110 | The `'createDate'` case rearranges the list without losing or adding notes. `CreateDateSortOldestFirst` gives its order. |
| NoteOrder.SortByEditDate | src/App.tsx:111-118 | The `'editDate'` case rearranges the list without losing or adding notes. `EditDateSortUneditedFirst` gives its order. |
| NoteApp.Submittable | src/App.tsx:49 | The add guard accepts a draft exactly when both its title and its text hold a character other than whitespace. |
| NoteApp.App.Valid | src/App.tsx:26-29 | The mode invariant: the add and edit forms are never both open, and neither draft carries an edit stamp. Every handler keeps it (src/App.tsx:62, 66-69, 92, 177). |
| NoteApp.App.constructor | src/App.tsx:14-24 | On mount, the list is what the storage slot held, both forms are closed and both drafts are blank. |
| NoteApp.App.OpenFromAddNote | src/App.tsx:26-29 | The header button toggles the add form, closes the edit form and changes nothing else. |
| NoteApp.App.SetNewTitle | src/App.tsx:31-37 | Typing in the add form's title field changes only that field of the add draft. |
| NoteApp.App.SetNewText | src/App.tsx:31-37 | Typing in the add form's text field changes only that field of the add draft. |
| NoteApp.App.SetEditedTitle | src/App.tsx:39-45 | Typing in the edit form's title field changes only that field of the edit draft. |
| NoteApp.App.SetEditedText | src/App.tsx:39-45 | Typing in the edit form's text field changes only that field of the edit draft. |
| NoteApp.App.HandleAddNote | src/App.tsx:47-63 | A draft whose title or text is blank once trimmed changes nothing except closing the form. Otherwise the new note goes first with the fresh id and the current time, the list grows by one and is written to storage, and the draft is cleared. A fresh id keeps ids unique. |
| NoteApp.App.HandleEditNote | src/App.tsx:65-77 | The add form always closes. When a note carries the id, the edit form opens on a copy of the first such note without its edit stamp. Otherwise the edit state is unchanged. |
| NoteApp.App.HandleUpdateNote | src/App.tsx:79-94 | Saving replaces every note carrying the draft's id by the stamped draft, writes the list to storage, closes the edit form, clears its draft and keeps ids unique. |
| NoteApp.App.HandleDeleteNote | src/App.tsx:96-100 | Deleting filters out the id and writes the list to storage. With unique ids, a present id costs exactly one note, and ids stay unique. |
| NoteApp.App.SortNotes | src/App.tsx:102-127 | Sorting shows the sort result for the option on a copy of the list, leaves the storage slot unchanged and keeps ids unique. |
| NoteApp.App.CancelEdit | src/App.tsx:177 | The cancel button closes the edit form and changes nothing else. |
| NoteApp.EditThenSave | src/App.tsx:65-94 | Opening the edit form on a note and saving it, with unique ids, stamps exactly the notes with that id. It keeps every id and creation date in place, leaves other notes alone and writes the list to storage. |
| NoteApp.AddThroughForm | src/App.tsx:26-63 | Opening the add form, typing a one-character title and text, and submitting puts the new note first and writes the list to storage. |
| NoteApp.AddSortDeleteScenario | src/App.tsx:47-127 | Starting empty, adding "A" then "B" gives [B, A]. A title sort then gives [A, B], and deleting "A" gives [B]. |

## Left out

- Rendering, JSX markup, styles and the Russian labels are left out. They carry no logic beyond
  putting the state on screen.
- React's mechanics are replaced by a direct assignment of each handler's new state. These are
  `useState` setters, batching and re-rendering, updater callbacks, and `preventDefault`.
- Local storage and JSON are modelled as a ghost field.
  - `JSON.stringify`/`JSON.parse` are not modelled; the field holds the list itself, not its
    serialized text.
  - `JSON.parse` throwing on unreadable stored data is not modelled. The constructor takes the
    list as read.
- A failing `localStorage.setItem` is not modelled. The write can throw, for example a
  `QuotaExceededError`, or a `SecurityError` when storage is disabled (src/App.tsx:59, 91, 99).
  The contracts that say `stored == notes`, and every state change after the write, assume it
  succeeds.
  - When the write fails in `handleAddNote`, `setNotes` has already run (src/App.tsx:58).
    Clearing the draft (60) and closing the form (62) are skipped, and storage keeps the old
    list.
  - When it fails in `handleUpdateNote`, closing the edit form and clearing its draft (92-93)
    are skipped.
  - When it fails in `handleDeleteNote`, nothing follows the write, but storage keeps the old
    list.
- `uuid()` is not modelled; its result is the input `freshId`. `HandleAddNote` promises unique
  ids only when that id is fresh.
- `toLocaleString('en-GB', …)` date formatting is not modelled; its result is the input `now`.
- `new Date(s).getTime()` is the input `parse`, from strings to integers. This leaves out an
  unparseable date: it gives `NaN`, which the sort treats as a tie, and that breaks the
  comparator's consistency.
- `localeCompare` is the input `collate`. The Unicode collation itself is not modelled.
- JavaScript `sort` is modelled by the stable insertion sort. The engine's actual algorithm is
  not modelled; `SortIsTheStableSort` shows that any stable sort gives the same list under a
  consistent comparator.
- NoteOrder.TitleSortOrdered: the result holds only for a consistent `collate`. With an
  inconsistent comparator, JavaScript's sort order depends on the engine, and the model gives
  no guarantee for that case.
- The input handlers use a computed key, `[e.target.name]: value`. They are modelled as one
  setter per input field, title and text. These are the only names the forms give their inputs
  (src/App.tsx:146-173).
- Strings are sequences of Dafny `char`. The model does not tell JavaScript's UTF-16 code
  units apart from code points. None of the modelled operations depends on that difference.
