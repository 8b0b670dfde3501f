/**
 * The three orders behind the sort buttons. Each sorts a copy of the list
 * with a comparator; the creation-date and edit-date orders then reverse it.
 * `localeCompare` is the collation passed in as `collate`, and
 * `new Date(s).getTime()` is the timestamp reading passed in as `parse`.
 */
module NoteOrder {
  import opened Notes
  import opened StableSort

  /**
   * `(a, b) => a.title.localeCompare(b.title)`: two notes rank as their
   * titles collate, so a consistent collation gives a consistent order of
   * notes.
   */
  function TitleOrder(collate: (string, string) -> int): (f: (Note, Note) -> int)
    ensures forall a: Note, b: Note :: f(a, b) == collate(a.title, b.title)
    ensures Consistent(collate) ==> Consistent(f)
  {
    var f := (a: Note, b: Note) => collate(a.title, b.title);
    LiftConsistent(collate, f);
    f
  }

  /**
   * `(a, b) => time(b.createDate) - time(a.createDate)`: a note created later
   * ranks first, and notes created at the same time rank equal.
   */
  function CreateDateOrder(parse: string -> int): (f: (Note, Note) -> int)
    ensures forall a: Note, b: Note :: f(a, b) < 0 <==> parse(a.createDate) > parse(b.createDate)
    ensures forall a: Note, b: Note :: f(a, b) == 0 <==> parse(a.createDate) == parse(b.createDate)
  {
    (a: Note, b: Note) => parse(b.createDate) - parse(a.createDate)
  }

  /**
   * Edited notes rank before the notes never edited, which all rank equal;
   * among edited notes the later edit ranks first.
   */
  function EditDateOrder(parse: string -> int): (f: (Note, Note) -> int)
    ensures forall a: Note, b: Note :: IsEdited(a) && !IsEdited(b) ==> f(a, b) < 0 && f(b, a) > 0
    ensures forall a: Note, b: Note :: !IsEdited(a) && !IsEdited(b) ==> f(a, b) == 0
    ensures forall a: Note, b: Note :: IsEdited(a) && IsEdited(b) ==>
              (f(a, b) < 0 <==> parse(a.editData.value) > parse(b.editData.value))
  {
    (a: Note, b: Note) =>
      if !IsEdited(a) && !IsEdited(b) then 0
      else if !IsEdited(a) then 1
      else if !IsEdited(b) then -1
      else parse(b.editData.value) - parse(a.editData.value)
  }

  /** The `'title'` case: a stable sort by title; `TitleSortOrdered` gives its order. */
  function SortByTitle(s: seq<Note>, collate: (string, string) -> int): (r: seq<Note>)
    ensures |r| == |s| && multiset(r) == multiset(s)
  {
    Sort(s, TitleOrder(collate))
  }

  /** The `'createDate'` case: sort, then reverse; `CreateDateSortOldestFirst` gives its order. */
  function SortByCreateDate(s: seq<Note>, parse: string -> int): (r: seq<Note>)
    ensures |r| == |s| && multiset(r) == multiset(s)
  {
    Reversed(Sort(s, CreateDateOrder(parse)))
  }

  /** The `'editDate'` case: sort, then reverse; `EditDateSortUneditedFirst` gives its order. */
  function SortByEditDate(s: seq<Note>, parse: string -> int): (r: seq<Note>)
    ensures |r| == |s| && multiset(r) == multiset(s)
  {
    Reversed(Sort(s, EditDateOrder(parse)))
  }

  /**
   * The list the sort handler leaves for `option`: a permutation of the
   * list, which an option other than the three buttons' leaves as it was.
   */
  function SortResult(option: string, s: seq<Note>, collate: (string, string) -> int, parse: string -> int): (r: seq<Note>)
    ensures multiset(r) == multiset(s)
    ensures |r| == |s|
    ensures option != "title" && option != "createDate" && option != "editDate" ==> r == s
  {
    if option == "title" then SortByTitle(s, collate)
    else if option == "createDate" then SortByCreateDate(s, parse)
    else if option == "editDate" then SortByEditDate(s, parse)
    else s
  }

  /** Comparing notes by a consistent collation of their titles is consistent. */
  lemma LiftConsistent(collate: (string, string) -> int, cmp: (Note, Note) -> int)
    requires forall a: Note, b: Note :: cmp(a, b) == collate(a.title, b.title)
    ensures Consistent(collate) ==> Consistent(cmp)
  {
    if Consistent(collate) {
      forall a: Note, b: Note ensures Answer(cmp, a, b) < 0 <==> Answer(cmp, b, a) > 0 {
        Flip(collate, a.title, b.title);
      }
      forall a: Note, b: Note, c: Note | Answer(cmp, a, b) <= 0 && Answer(cmp, b, c) <= 0
        ensures Answer(cmp, a, c) <= 0
      {
        Transitive(collate, a.title, b.title, c.title);
      }
    }
  }

  /** Subtracting integer timestamps is a consistent comparator, whatever `parse` reads. */
  lemma CreateDateOrderConsistent(parse: string -> int)
    ensures Consistent(CreateDateOrder(parse))
  {
    var cmp := CreateDateOrder(parse);
    forall a: Note, b: Note ensures Answer(cmp, a, b) < 0 <==> Answer(cmp, b, a) > 0 {
    }
    forall a: Note, b: Note, c: Note | Answer(cmp, a, b) <= 0 && Answer(cmp, b, c) <= 0
      ensures Answer(cmp, a, c) <= 0
    {
    }
  }

  /** The edit-date comparator is consistent, whatever `parse` reads. */
  lemma EditDateOrderConsistent(parse: string -> int)
    ensures Consistent(EditDateOrder(parse))
  {
    var cmp := EditDateOrder(parse);
    forall a: Note, b: Note ensures Answer(cmp, a, b) < 0 <==> Answer(cmp, b, a) > 0 {
    }
    forall a: Note, b: Note, c: Note | Answer(cmp, a, b) <= 0 && Answer(cmp, b, c) <= 0
      ensures Answer(cmp, a, c) <= 0
    {
    }
  }

  /**
   * Sorting by title leaves titles in collation order and keeps notes with
   * equally ranked titles in their original order.
   */
  lemma TitleSortOrdered(s: seq<Note>, collate: (string, string) -> int)
    requires Consistent(collate)
    ensures var r := SortByTitle(s, collate);
      && (forall i, j :: 0 <= i < j < |r| ==> collate(r[i].title, r[j].title) <= 0)
      && (forall y :: Ties(r, y, TitleOrder(collate)) == Ties(s, y, TitleOrder(collate)))
  {
    SortSorted(s, TitleOrder(collate));
    forall y ensures Ties(SortByTitle(s, collate), y, TitleOrder(collate)) == Ties(s, y, TitleOrder(collate)) {
      SortStable(s, y, TitleOrder(collate));
    }
  }

  /**
   * Because of the final `reverse`, sorting by creation date leaves the
   * oldest note first, and notes created at the same time come out in the
   * reverse of their original order.
   */
  lemma CreateDateSortOldestFirst(s: seq<Note>, parse: string -> int)
    ensures var r := SortByCreateDate(s, parse);
      && (forall i, j :: 0 <= i < j < |r| ==> parse(r[i].createDate) <= parse(r[j].createDate))
      && (forall y :: Ties(r, y, CreateDateOrder(parse)) == Reversed(Ties(s, y, CreateDateOrder(parse))))
  {
    var cmp := CreateDateOrder(parse);
    var sorted := Sort(s, cmp);
    var r := Reversed(sorted);
    var n := |r|;
    CreateDateOrderConsistent(parse);
    SortSorted(s, cmp);
    forall i, j | 0 <= i < j < n ensures parse(r[i].createDate) <= parse(r[j].createDate) {
      assert cmp(sorted[n - 1 - j], sorted[n - 1 - i]) <= 0;
    }
    forall y ensures Ties(r, y, cmp) == Reversed(Ties(s, y, cmp)) {
      SortStable(s, y, cmp);
      TiesReversed(sorted, y, cmp);
    }
  }

  /**
   * Because of the final `reverse`, sorting by edit date puts every note
   * never edited before every edited note, the edited ones oldest edit
   * first; notes the comparator ranks equal (among them all the notes never
   * edited) come out in the reverse of their original order.
   */
  lemma EditDateSortUneditedFirst(s: seq<Note>, parse: string -> int)
    ensures var r := SortByEditDate(s, parse);
      && (forall i, j :: 0 <= i < j < |r| && IsEdited(r[i]) ==> IsEdited(r[j]))
      && (forall i, j :: 0 <= i < j < |r| && IsEdited(r[i]) && IsEdited(r[j]) ==>
            parse(r[i].editData.value) <= parse(r[j].editData.value))
      && (forall y :: Ties(r, y, EditDateOrder(parse)) == Reversed(Ties(s, y, EditDateOrder(parse))))
  {
    var cmp := EditDateOrder(parse);
    var sorted := Sort(s, cmp);
    var r := Reversed(sorted);
    var n := |r|;
    EditDateOrderConsistent(parse);
    SortSorted(s, cmp);
    forall i, j | 0 <= i < j < n
      ensures IsEdited(r[i]) ==> IsEdited(r[j])
      ensures IsEdited(r[i]) && IsEdited(r[j]) ==> parse(r[i].editData.value) <= parse(r[j].editData.value)
    {
      assert cmp(sorted[n - 1 - j], sorted[n - 1 - i]) <= 0;
    }
    forall y ensures Ties(r, y, cmp) == Reversed(Ties(s, y, cmp)) {
      SortStable(s, y, cmp);
      TiesReversed(sorted, y, cmp);
    }
  }

  /** Among notes the edit-date comparator ranks equal to an unedited note are exactly the unedited ones. */
  lemma EditDateTiesOfUnedited(n: Note, y: Note, parse: string -> int)
    requires !IsEdited(y)
    ensures EditDateOrder(parse)(n, y) == 0 <==> !IsEdited(n)
  {
  }
}
