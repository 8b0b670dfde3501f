/**
 * The note record of the app and the list transforms its handlers apply:
 * `find` by id, the `map` that replaces the edited note, and the `filter`
 * that deletes one.
 */
module Notes {

  datatype Option<T> = None | Some(value: T)

  /**
   * One note. `editData` is the optional edit timestamp; the field keeps the
   * name the source gives it. Timestamps are the opaque strings the UI
   * formats; nothing here interprets them.
   */
  datatype Note = Note(id: string, title: string, text: string, createDate: string, editData: Option<string>)

  /** The empty draft both forms start from and are reset to. */
  const BlankDraft: Note := Note("", "", "", "", None)

  /** JavaScript's `!note.editData` is false only for a present, non-empty string. */
  predicate IsEdited(n: Note) {
    n.editData.Some? && n.editData.value != ""
  }

  predicate HasId(s: seq<Note>, id: string) {
    exists i :: 0 <= i < |s| && s[i].id == id
  }

  /** No two positions of the list carry the same id. */
  predicate UniqueIds(s: seq<Note>) {
    forall i, j :: 0 <= i < j < |s| ==> s[i].id != s[j].id
  }

  /** No note before position `k` carries `id`. */
  predicate NoIdBefore(s: seq<Note>, id: string, k: int)
    requires 0 <= k <= |s|
  {
    forall j :: 0 <= j < k ==> s[j].id != id
  }

  /** `notes.find(note => note.id === id)`: the first note carrying `id`, if any. */
  function FindById(s: seq<Note>, id: string): (r: Option<Note>)
    ensures r.None? <==> !HasId(s, id)
    ensures r.Some? ==> exists i :: 0 <= i < |s| && s[i] == r.value && r.value.id == id && NoIdBefore(s, id, i)
  {
    if s == [] then None
    else if s[0].id == id then
      assert NoIdBefore(s, id, 0);
      Some(s[0])
    else
      var r := FindById(s[1..], id);
      if r.Some? then
        var i :| 0 <= i < |s| - 1 && s[1..][i] == r.value && r.value.id == id && NoIdBefore(s[1..], id, i);
        assert s[i + 1] == r.value && NoIdBefore(s, id, i + 1);
        r
      else
        r
  }

  /** With unique ids, `find` returns the one note that carries the id. */
  lemma {:induction false} FindByIdUnique(s: seq<Note>, k: nat)
    requires UniqueIds(s)
    requires k < |s|
    ensures FindById(s, s[k].id) == Some(s[k])
  {
    var r := FindById(s, s[k].id);
    var i :| 0 <= i < |s| && s[i] == r.value && r.value.id == s[k].id && NoIdBefore(s, s[k].id, i);
    assert i == k;
  }

  /**
   * The note an update writes: the draft, stamped with the edit time. It
   * counts as edited, for the edit-date sort, exactly when the stamp is a
   * non-empty string.
   */
  function Stamped(draft: Note, stamp: string): (n: Note)
    ensures n.id == draft.id
    ensures IsEdited(n) <==> stamp != ""
  {
    draft.(editData := Some(stamp))
  }

  /**
   * `notes.map(note => note.id === draft.id ? {...draft, editData: stamp} : note)`.
   * The list keeps its length; every note carrying the draft's id becomes the
   * stamped draft and every other note stays as it was.
   */
  function ReplaceById(s: seq<Note>, draft: Note, stamp: string): (r: seq<Note>)
    ensures |r| == |s|
    ensures forall i :: 0 <= i < |s| && s[i].id == draft.id ==> r[i] == Stamped(draft, stamp)
    ensures forall i :: 0 <= i < |s| && s[i].id != draft.id ==> r[i] == s[i]
  {
    if s == [] then []
    else
      var head := if s[0].id == draft.id then Stamped(draft, stamp) else s[0];
      [head] + ReplaceById(s[1..], draft, stamp)
  }

  /** An update keeps every id where it was, so unique ids stay unique. */
  lemma ReplaceKeepsUniqueIds(s: seq<Note>, draft: Note, stamp: string)
    ensures UniqueIds(s) ==> UniqueIds(ReplaceById(s, draft, stamp))
  {
    if UniqueIds(s) {
      var r := ReplaceById(s, draft, stamp);
      forall i, j | 0 <= i < j < |r|
        ensures r[i].id != r[j].id
      {
        assert r[i].id == s[i].id && r[j].id == s[j].id;
      }
    }
  }

  /** An update whose draft's id is in no note leaves the list as it was. */
  lemma ReplaceAbsentUnchanged(s: seq<Note>, draft: Note, stamp: string)
    requires !HasId(s, draft.id)
    ensures ReplaceById(s, draft, stamp) == s
  {
    var r := ReplaceById(s, draft, stamp);
    forall i | 0 <= i < |s|
      ensures r[i] == s[i]
    {
      assert s[i].id != draft.id;
    }
  }

  /**
   * An update never moves a creation date when the draft carries the creation
   * date of the notes it replaces, as a draft opened from that note does.
   */
  lemma ReplaceKeepsCreateDates(s: seq<Note>, draft: Note, stamp: string)
    requires forall i :: 0 <= i < |s| && s[i].id == draft.id ==> s[i].createDate == draft.createDate
    ensures forall i :: 0 <= i < |s| ==> ReplaceById(s, draft, stamp)[i].createDate == s[i].createDate
  {
    var r := ReplaceById(s, draft, stamp);
    forall i | 0 <= i < |s|
      ensures r[i].createDate == s[i].createDate
    {
      if s[i].id == draft.id {
        assert r[i] == Stamped(draft, stamp);
      }
    }
  }

  /**
   * Saving a draft taken unchanged from the note `find` returns, with its
   * stamp removed: with unique ids, that note changes only in its stamp.
   */
  lemma ReplaceWithFound(s: seq<Note>, id: string, stamp: string)
    requires UniqueIds(s) && HasId(s, id)
    ensures var draft := FindById(s, id).value.(editData := None);
      forall i :: 0 <= i < |s| && s[i].id == id ==>
        ReplaceById(s, draft, stamp)[i] == s[i].(editData := Some(stamp))
  {
    var draft := FindById(s, id).value.(editData := None);
    forall i | 0 <= i < |s| && s[i].id == id
      ensures ReplaceById(s, draft, stamp)[i] == s[i].(editData := Some(stamp))
    {
      FindByIdUnique(s, i);
    }
  }

  /** How many notes of the list carry `id`. */
  function CountId(s: seq<Note>, id: string): (c: nat)
    ensures c <= |s|
    ensures c == 0 <==> !HasId(s, id)
  {
    if s == [] then 0
    else
      var c := (if s[0].id == id then 1 else 0) + CountId(s[1..], id);
      assert HasId(s, id) <==> s[0].id == id || HasId(s[1..], id) by {
        if HasId(s[1..], id) {
          var i :| 0 <= i < |s| - 1 && s[1..][i].id == id;
          assert s[i + 1].id == id;
        }
      }
      c
  }

  /** `r` is `s` with some of its elements dropped, the rest in their order. */
  ghost predicate IsSubsequence(r: seq<Note>, s: seq<Note>)
    decreases |s|
  {
    if r == [] then true
    else if s == [] then false
    else (r[0] == s[0] && IsSubsequence(r[1..], s[1..])) || IsSubsequence(r, s[1..])
  }

  /**
   * `notes.filter(note => note.id !== id)`: an order-preserving subsequence of
   * the list in which no note carries `id` and which is shorter by exactly the
   * number of notes that did, so it keeps every other note. A list without
   * the id comes back unchanged.
   */
  function RemoveById(s: seq<Note>, id: string): (r: seq<Note>)
    ensures IsSubsequence(r, s)
    ensures forall i :: 0 <= i < |r| ==> r[i].id != id
    ensures |r| == |s| - CountId(s, id)
    ensures !HasId(s, id) ==> r == s
  {
    if s == [] then []
    else
      var tail := RemoveById(s[1..], id);
      assert !HasId(s, id) ==> !HasId(s[1..], id) by {
        if HasId(s[1..], id) {
          var i :| 0 <= i < |s| - 1 && s[1..][i].id == id;
          assert s[i + 1].id == id;
        }
      }
      if s[0].id == id then tail
      else
        assert ([s[0]] + tail)[1..] == tail;
        [s[0]] + tail
  }

  /** Elements of a subsequence are elements of the list it came from. */
  lemma {:induction false} SubsequenceMembers(r: seq<Note>, s: seq<Note>)
    requires IsSubsequence(r, s)
    ensures forall n :: n in r ==> n in s
    decreases |s|
  {
    if r != [] {
      if r[0] == s[0] && IsSubsequence(r[1..], s[1..]) {
        SubsequenceMembers(r[1..], s[1..]);
        assert forall n :: n in r ==> n == r[0] || n in r[1..];
      } else {
        SubsequenceMembers(r, s[1..]);
      }
    }
  }

  /** Dropping notes cannot create a duplicate id. */
  lemma {:induction false} SubsequenceKeepsUniqueIds(r: seq<Note>, s: seq<Note>)
    requires IsSubsequence(r, s)
    requires UniqueIds(s)
    ensures UniqueIds(r)
    decreases |s|
  {
    if r != [] {
      assert UniqueIds(s[1..]) by {
        forall i, j | 0 <= i < j < |s| - 1 ensures s[1..][i].id != s[1..][j].id {
          assert s[1..][i] == s[i + 1] && s[1..][j] == s[j + 1];
        }
      }
      if r[0] == s[0] && IsSubsequence(r[1..], s[1..]) {
        SubsequenceKeepsUniqueIds(r[1..], s[1..]);
        SubsequenceMembers(r[1..], s[1..]);
        forall j | 0 < j < |r| ensures r[0].id != r[j].id {
          assert r[j] == r[1..][j - 1] && r[j] in r[1..];
          var k :| 0 <= k < |s| - 1 && s[1..][k] == r[j];
          assert s[k + 1] == r[j];
        }
      } else {
        SubsequenceKeepsUniqueIds(r, s[1..]);
      }
    }
  }

  /** With unique ids, deleting a present id shortens the list by exactly one. */
  lemma {:induction false} CountUniqueId(s: seq<Note>, id: string)
    requires UniqueIds(s)
    requires HasId(s, id)
    ensures CountId(s, id) == 1
  {
    assert UniqueIds(s[1..]) by {
      forall i, j | 0 <= i < j < |s| - 1 ensures s[1..][i].id != s[1..][j].id {
        assert s[1..][i] == s[i + 1] && s[1..][j] == s[j + 1];
      }
    }
    if s[0].id != id {
      var i :| 0 <= i < |s| && s[i].id == id;
      assert s[1..][i - 1].id == id;
      CountUniqueId(s[1..], id);
    }
  }

  /** How often a note occurs in a list with unique ids: at most once. */
  lemma {:induction false} UniqueIdsNoRepeat(s: seq<Note>, n: Note)
    requires UniqueIds(s)
    ensures multiset(s)[n] <= 1
  {
    if s != [] {
      assert s == [s[0]] + s[1..];
      assert UniqueIds(s[1..]) by {
        forall i, j | 0 <= i < j < |s| - 1 ensures s[1..][i].id != s[1..][j].id {
          assert s[1..][i] == s[i + 1] && s[1..][j] == s[j + 1];
        }
      }
      UniqueIdsNoRepeat(s[1..], n);
    }
  }

  /** A note found at two positions occurs at least twice. */
  lemma RepeatCounts(r: seq<Note>, i: nat, j: nat)
    requires i < j < |r|
    requires r[i] == r[j]
    ensures multiset(r)[r[i]] >= 2
  {
    assert r == r[..j] + r[j..];
    assert r[i] in r[..j] && r[j] in r[j..];
  }

  /** Reordering a list with unique ids keeps its ids unique. */
  lemma PermutationKeepsUniqueIds(s: seq<Note>, r: seq<Note>)
    requires multiset(r) == multiset(s)
    requires UniqueIds(s)
    ensures UniqueIds(r)
  {
    forall i, j | 0 <= i < j < |r| ensures r[i].id != r[j].id {
      if r[i] == r[j] {
        UniqueIdsNoRepeat(s, r[i]);
        RepeatCounts(r, i, j);
        assert false;
      } else {
        assert r[i] in multiset(s) && r[j] in multiset(s);
        var p :| 0 <= p < |s| && s[p] == r[i];
        var q :| 0 <= q < |s| && s[q] == r[j];
      }
    }
  }
}
