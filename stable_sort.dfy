/**
 * `Array.prototype.sort` with a comparator and `Array.prototype.reverse`,
 * the two library calls the sort handler makes on its copy of the list.
 *
 * A comparator answers with a number: a negative or zero answer lets its
 * first argument stay before its second, a positive one puts it after.
 * The specification of `sort` (ECMAScript 2019 and later) makes the sort
 * stable, so for a consistent comparator its outcome is determined: it is
 * the unique ordering that is sorted and keeps each group of ties in its
 * original order (SortedStableUnique). The insertion sort below is one
 * algorithm with that outcome.
 */
module StableSort {

  /** The comparator's answer; the quantifiers of Consistent fire only on it. */
  function Answer<T>(cmp: (T, T) -> int, a: T, b: T): int {
    cmp(a, b)
  }

  /**
   * A comparator ECMAScript calls consistent: the sign of its answer flips
   * when the arguments are swapped, and "not after" is transitive.
   */
  ghost predicate Consistent<T(!new)>(cmp: (T, T) -> int) {
    && (forall a, b {:trigger Answer(cmp, a, b)} :: Answer(cmp, a, b) < 0 <==> Answer(cmp, b, a) > 0)
    && (forall a, b, c {:trigger Answer(cmp, a, b), Answer(cmp, b, c)} ::
          Answer(cmp, a, b) <= 0 && Answer(cmp, b, c) <= 0 ==> Answer(cmp, a, c) <= 0)
  }

  lemma Transitive<T(!new)>(cmp: (T, T) -> int, a: T, b: T, c: T)
    requires Consistent(cmp)
    requires cmp(a, b) <= 0 && cmp(b, c) <= 0
    ensures cmp(a, c) <= 0
  {
    assert Answer(cmp, a, b) <= 0 && Answer(cmp, b, c) <= 0;
    assert Answer(cmp, a, c) <= 0;
  }

  lemma Flip<T(!new)>(cmp: (T, T) -> int, a: T, b: T)
    requires Consistent(cmp)
    ensures cmp(a, b) < 0 <==> cmp(b, a) > 0
    ensures cmp(a, b) == 0 <==> cmp(b, a) == 0
    ensures cmp(a, a) == 0
  {
    assert Answer(cmp, a, b) < 0 <==> Answer(cmp, b, a) > 0;
    assert Answer(cmp, b, a) < 0 <==> Answer(cmp, a, b) > 0;
    assert Answer(cmp, a, a) < 0 <==> Answer(cmp, a, a) > 0;
  }

  /** No element is ranked after an element that follows it. */
  ghost predicate Sorted<T>(s: seq<T>, cmp: (T, T) -> int) {
    forall i, j :: 0 <= i < j < |s| ==> cmp(s[i], s[j]) <= 0
  }

  /** The elements of `s` that `cmp` ranks equal to `x`, in their order in `s`. */
  function Ties<T>(s: seq<T>, x: T, cmp: (T, T) -> int): seq<T> {
    if s == [] then []
    else Ties(s[..|s| - 1], x, cmp) + (if cmp(s[|s| - 1], x) == 0 then [s[|s| - 1]] else [])
  }

  lemma {:induction false} TiesAppend<T>(a: seq<T>, b: seq<T>, x: T, cmp: (T, T) -> int)
    ensures Ties(a + b, x, cmp) == Ties(a, x, cmp) + Ties(b, x, cmp)
  {
    if b == [] {
      assert a + b == a;
    } else {
      assert (a + b)[..|a + b| - 1] == a + b[..|b| - 1];
      TiesAppend(a, b[..|b| - 1], x, cmp);
    }
  }

  lemma {:induction false} TiesMember<T>(s: seq<T>, x: T, y: T, cmp: (T, T) -> int)
    requires y in Ties(s, x, cmp)
    ensures y in s && cmp(y, x) == 0
  {
    if y !in Ties(s[..|s| - 1], x, cmp) {
      assert y == s[|s| - 1];
    } else {
      TiesMember(s[..|s| - 1], x, y, cmp);
      assert s[..|s| - 1] <= s;
    }
  }

  /**
   * Inserts `x` into `t` after the last element that `cmp` does not rank
   * after `x`: one step of a stable insertion sort.
   */
  function Insert<T>(t: seq<T>, x: T, cmp: (T, T) -> int): (r: seq<T>)
    ensures |r| == |t| + 1
  {
    if t == [] || cmp(t[|t| - 1], x) <= 0 then t + [x]
    else Insert(t[..|t| - 1], x, cmp) + [t[|t| - 1]]
  }

  /** Inserting adds exactly the one element. */
  lemma {:induction false} InsertPermutes<T>(t: seq<T>, x: T, cmp: (T, T) -> int)
    ensures multiset(Insert(t, x, cmp)) == multiset(t) + multiset{x}
  {
    if t != [] && cmp(t[|t| - 1], x) > 0 {
      assert t == t[..|t| - 1] + [t[|t| - 1]];
      InsertPermutes(t[..|t| - 1], x, cmp);
    }
  }

  /** The outcome of a stable sort: a permutation of `s`. */
  function Sort<T>(s: seq<T>, cmp: (T, T) -> int): (r: seq<T>)
    ensures multiset(r) == multiset(s)
    ensures |r| == |s|
  {
    if s == [] then []
    else
      assert s == s[..|s| - 1] + [s[|s| - 1]];
      InsertPermutes(Sort(s[..|s| - 1], cmp), s[|s| - 1], cmp);
      Insert(Sort(s[..|s| - 1], cmp), s[|s| - 1], cmp)
  }

  lemma {:induction false} InsertSorted<T(!new)>(t: seq<T>, x: T, cmp: (T, T) -> int)
    requires Consistent(cmp)
    requires Sorted(t, cmp)
    ensures Sorted(Insert(t, x, cmp), cmp)
  {
    var r := Insert(t, x, cmp);
    if t == [] || cmp(t[|t| - 1], x) <= 0 {
      forall i, j | 0 <= i < j < |r| ensures cmp(r[i], r[j]) <= 0 {
        if j == |t| && i < |t| - 1 {
          Transitive(cmp, t[i], t[|t| - 1], x);
        }
      }
    } else {
      var init, last := t[..|t| - 1], t[|t| - 1];
      var r' := Insert(init, x, cmp);
      InsertPermutes(init, x, cmp);
      assert Sorted(init, cmp);
      InsertSorted(init, x, cmp);
      assert r == r' + [last];
      forall k | 0 <= k < |r'| ensures cmp(r'[k], last) <= 0 {
        assert r'[k] in multiset(r');
        if r'[k] == x {
          Flip(cmp, last, x);
        } else {
          assert r'[k] in multiset(init);
          var p :| 0 <= p < |init| && init[p] == r'[k];
          assert t[p] == r'[k];
        }
      }
      forall i, j | 0 <= i < j < |r| ensures cmp(r[i], r[j]) <= 0 {
        if j < |r'| {
          assert r[i] == r'[i] && r[j] == r'[j];
        } else {
          assert r[i] == r'[i] && r[j] == last;
        }
      }
    }
  }

  /** A stable sort with a consistent comparator sorts. */
  lemma {:induction false} SortSorted<T(!new)>(s: seq<T>, cmp: (T, T) -> int)
    requires Consistent(cmp)
    ensures Sorted(Sort(s, cmp), cmp)
  {
    if s != [] {
      SortSorted(s[..|s| - 1], cmp);
      InsertSorted(Sort(s[..|s| - 1], cmp), s[|s| - 1], cmp);
    }
  }

  lemma {:induction false} TiesInsert<T(!new)>(t: seq<T>, x: T, y: T, cmp: (T, T) -> int)
    requires Consistent(cmp)
    ensures Ties(Insert(t, x, cmp), y, cmp) == Ties(t, y, cmp) + (if cmp(x, y) == 0 then [x] else [])
  {
    if t == [] || cmp(t[|t| - 1], x) <= 0 {
      TiesAppend(t, [x], y, cmp);
    } else {
      var init, last := t[..|t| - 1], t[|t| - 1];
      var r := Insert(init, x, cmp);
      TiesInsert(init, x, y, cmp);
      assert (r + [last])[..|r + [last]| - 1] == r;
      // `last` is ranked after `x`, so the two are never both tied with `y`.
      if cmp(x, y) == 0 && cmp(last, y) == 0 {
        Flip(cmp, x, y);
        Transitive(cmp, last, y, x);
        assert false;
      }
    }
  }

  /** A stable sort keeps every group of ties in its original order. */
  lemma {:induction false} SortStable<T(!new)>(s: seq<T>, y: T, cmp: (T, T) -> int)
    requires Consistent(cmp)
    ensures Ties(Sort(s, cmp), y, cmp) == Ties(s, y, cmp)
  {
    if s != [] {
      SortStable(s[..|s| - 1], y, cmp);
      TiesInsert(Sort(s[..|s| - 1], cmp), s[|s| - 1], y, cmp);
    }
  }

  /** The last element of a non-empty list is in its own group of ties. */
  lemma LastTiesItself<T(!new)>(s: seq<T>, cmp: (T, T) -> int)
    requires Consistent(cmp)
    requires s != []
    ensures Ties(s, s[|s| - 1], cmp) != []
  {
    Flip(cmp, s[|s| - 1], s[|s| - 1]);
  }

  /**
   * Two non-empty sorted orderings with the same groups of ties end in the
   * same element.
   */
  lemma {:induction false} SameLast<T(!new)>(r1: seq<T>, r2: seq<T>, cmp: (T, T) -> int)
    requires Consistent(cmp)
    requires Sorted(r1, cmp) && Sorted(r2, cmp)
    requires forall y :: Ties(r1, y, cmp) == Ties(r2, y, cmp)
    requires r1 != [] && r2 != []
    ensures r1[|r1| - 1] == r2[|r2| - 1]
  {
    var a, b := r1[|r1| - 1], r2[|r2| - 1];
    Flip(cmp, a, b);
    Flip(cmp, b, b);
    assert b in Ties(r2, b, cmp);
    TiesMember(r1, b, b, cmp);
    var k1 :| 0 <= k1 < |r1| && r1[k1] == b;
    assert cmp(b, a) <= 0 by {
      if k1 < |r1| - 1 {
        assert cmp(r1[k1], r1[|r1| - 1]) <= 0;
      }
    }
    assert a in Ties(r1, a, cmp);
    TiesMember(r2, a, a, cmp);
    var k2 :| 0 <= k2 < |r2| && r2[k2] == a;
    assert cmp(a, b) <= 0 by {
      if k2 < |r2| - 1 {
        assert cmp(r2[k2], r2[|r2| - 1]) <= 0;
      }
    }
    assert Ties(r1, a, cmp) == Ties(r1[..|r1| - 1], a, cmp) + [a];
    assert Ties(r2, a, cmp) == Ties(r2[..|r2| - 1], a, cmp) + [b];
    var ta := Ties(r1, a, cmp);
    assert ta[|ta| - 1] == a && ta[|ta| - 1] == b;
  }

  /** Dropping the same last element from both lists keeps their groups of ties equal. */
  lemma {:induction false} SameTiesBefore<T>(r1: seq<T>, r2: seq<T>, init1: seq<T>, init2: seq<T>, cmp: (T, T) -> int)
    requires r1 != [] && r2 != [] && r1[|r1| - 1] == r2[|r2| - 1]
    requires init1 == r1[..|r1| - 1] && init2 == r2[..|r2| - 1]
    requires forall y :: Ties(r1, y, cmp) == Ties(r2, y, cmp)
    ensures forall y :: Ties(init1, y, cmp) == Ties(init2, y, cmp)
  {
    var a := r1[|r1| - 1];
    forall y ensures Ties(init1, y, cmp) == Ties(init2, y, cmp) {
      var tail := if cmp(a, y) == 0 then [a] else [];
      var t1, t2 := Ties(init1, y, cmp), Ties(init2, y, cmp);
      assert Ties(r1, y, cmp) == t1 + tail;
      assert Ties(r2, y, cmp) == t2 + tail;
      assert t1 == (t1 + tail)[..|t1|];
      assert t2 == (t2 + tail)[..|t2|];
    }
  }

  /**
   * Two sorted orderings that keep every group of ties in the same order
   * are the same ordering.
   */
  lemma {:induction false} SortedStableUnique<T(!new)>(r1: seq<T>, r2: seq<T>, cmp: (T, T) -> int)
    requires Consistent(cmp)
    requires Sorted(r1, cmp) && Sorted(r2, cmp)
    requires forall y :: Ties(r1, y, cmp) == Ties(r2, y, cmp)
    ensures r1 == r2
    decreases |r1| + |r2|
  {
    if r1 != [] {
      LastTiesItself(r1, cmp);
    }
    if r2 != [] {
      LastTiesItself(r2, cmp);
    }
    if r1 == [] || r2 == [] {
    } else {
      SameLast(r1, r2, cmp);
      var init1, init2 := r1[..|r1| - 1], r2[..|r2| - 1];
      SameTiesBefore(r1, r2, init1, init2, cmp);
      assert Sorted(init1, cmp) && Sorted(init2, cmp);
      SortedStableUnique(init1, init2, cmp);
      assert r1 == init1 + [r1[|r1| - 1]] && r2 == init2 + [r2[|r2| - 1]];
    }
  }

  /**
   * Sort is the outcome of every stable sort: any sorted ordering of `s`
   * that keeps its ties in order equals it.
   */
  lemma SortIsTheStableSort<T(!new)>(s: seq<T>, r: seq<T>, cmp: (T, T) -> int)
    requires Consistent(cmp)
    requires Sorted(r, cmp)
    requires forall y :: Ties(r, y, cmp) == Ties(s, y, cmp)
    ensures r == Sort(s, cmp)
  {
    SortSorted(s, cmp);
    forall y ensures Ties(r, y, cmp) == Ties(Sort(s, cmp), y, cmp) {
      SortStable(s, y, cmp);
    }
    SortedStableUnique(r, Sort(s, cmp), cmp);
  }

  /** `s` back to front. */
  function Reversed<T>(s: seq<T>): (r: seq<T>)
    ensures |r| == |s|
    ensures forall k :: 0 <= k < |s| ==> r[k] == s[|s| - 1 - k]
    ensures multiset(r) == multiset(s)
  {
    if s == [] then []
    else
      assert s == s[..|s| - 1] + [s[|s| - 1]];
      [s[|s| - 1]] + Reversed(s[..|s| - 1])
  }

  /** Reversing a list reverses each of its groups of ties. */
  lemma {:induction false} TiesReversed<T>(s: seq<T>, y: T, cmp: (T, T) -> int)
    ensures Ties(Reversed(s), y, cmp) == Reversed(Ties(s, y, cmp))
  {
    if s != [] {
      var init, last := s[..|s| - 1], s[|s| - 1];
      var tail := if cmp(last, y) == 0 then [last] else [];
      var before := Ties(init, y, cmp);
      assert Ties(s, y, cmp) == before + tail;
      assert Reversed(s) == [last] + Reversed(init);
      TiesReversed(init, y, cmp);
      TiesAppend([last], Reversed(init), y, cmp);
      assert [last][..0] == [];
      assert Ties([last], y, cmp) == tail;
      assert Ties(Reversed(s), y, cmp) == tail + Reversed(before);
      if tail == [] {
        assert before + tail == before;
      } else {
        assert (before + tail)[..|before|] == before;
        assert Reversed(before + tail) == tail + Reversed(before);
      }
    }
  }

  /**
   * Where Insert puts `x`: after position `j - 1`, when the element there is
   * not ranked after `x` and every later one is.
   */
  lemma {:induction false} InsertPosition<T>(t: seq<T>, x: T, j: nat, cmp: (T, T) -> int)
    requires j <= |t|
    requires j == 0 || cmp(t[j - 1], x) <= 0
    requires forall k :: j <= k < |t| ==> cmp(t[k], x) > 0
    ensures Insert(t, x, cmp) == t[..j] + [x] + t[j..]
  {
    if j < |t| {
      var init := t[..|t| - 1];
      InsertPosition(init, x, j, cmp);
      assert init[..j] == t[..j] && init[j..] + [t[|t| - 1]] == t[j..];
    }
  }

  /**
   * `cur` is `orig` while `orig[i]` moves left: it has reached position `j`,
   * and the elements it passed have each moved one place right.
   */
  ghost predicate Shifted<T>(cur: seq<T>, orig: seq<T>, i: nat, j: nat) {
    && j <= i < |orig| == |cur|
    && (forall k :: 0 <= k < j ==> cur[k] == orig[k])
    && cur[j] == orig[i]
    && (forall k :: j < k <= i ==> cur[k] == orig[k - 1])
    && (forall k :: i < k < |cur| ==> cur[k] == orig[k])
  }

  /** One more step left keeps the picture Shifted describes. */
  lemma ShiftStep<T>(cur: seq<T>, orig: seq<T>, i: nat, j: nat)
    requires Shifted(cur, orig, i, j) && 0 < j
    ensures Shifted(cur[j := cur[j - 1]][j - 1 := orig[i]], orig, i, j - 1)
  {
  }

  /** Moves `a[i]` left past the elements of the sorted prefix ranked after it. */
  method InsertInPlace<T>(a: array<T>, i: nat, cmp: (T, T) -> int)
    requires i < a.Length
    modifies a
    ensures a[..] == Insert(old(a[..i]), old(a[i]), cmp) + old(a[i + 1..])
  {
    ghost var orig := a[..];
    var x := a[i];
    var j := i;
    while 0 < j && cmp(a[j - 1], x) > 0
      invariant 0 <= j <= i
      invariant Shifted(a[..], orig, i, j)
      invariant x == orig[i]
      invariant forall k :: j <= k < i ==> cmp(orig[k], x) > 0
    {
      ghost var cur := a[..];
      assert a[j - 1] == cur[j - 1] == orig[j - 1];
      a[j] := a[j - 1];
      a[j - 1] := x;
      assert a[..] == cur[j := cur[j - 1]][j - 1 := orig[i]];
      ShiftStep(cur, orig, i, j);
      j := j - 1;
    }
    assert j == 0 || a[..][j - 1] == orig[j - 1];
    Placed(a[..], orig, i, j, cmp);
  }

  /** The array contents InsertInPlace leaves, read position by position. */
  lemma Placed<T>(cur: seq<T>, orig: seq<T>, i: nat, j: nat, cmp: (T, T) -> int)
    requires Shifted(cur, orig, i, j)
    requires j == 0 || cmp(orig[j - 1], orig[i]) <= 0
    requires forall k :: j <= k < i ==> cmp(orig[k], orig[i]) > 0
    ensures cur == Insert(orig[..i], orig[i], cmp) + orig[i + 1..]
  {
    var t := orig[..i];
    InsertPosition(t, orig[i], j, cmp);
    var w := t[..j] + [orig[i]] + t[j..] + orig[i + 1..];
    forall k | 0 <= k < |cur|
      ensures cur[k] == w[k]
    {
      if k < j {
        assert w[k] == t[k];
      } else if j < k <= i {
        assert w[k] == t[k - 1];
      } else if i < k {
        assert w[k] == orig[k];
      }
    }
    assert cur == w;
  }

  lemma SortStep<T>(s: seq<T>, i: nat, cmp: (T, T) -> int)
    requires i < |s|
    ensures Sort(s[..i + 1], cmp) == Insert(Sort(s[..i], cmp), s[i], cmp)
  {
    assert s[..i + 1][..i] == s[..i];
  }

  /** Extends the sorted prefix of `a` by one element. */
  method SortOneMore<T>(a: array<T>, i: nat, cmp: (T, T) -> int, ghost s: seq<T>)
    requires i < a.Length == |s|
    requires a[..] == Sort(s[..i], cmp) + s[i..]
    modifies a
    ensures a[..] == Sort(s[..i + 1], cmp) + s[i + 1..]
  {
    ghost var sorted := Sort(s[..i], cmp);
    assert a[..i] == sorted && a[i] == s[i] && a[i + 1..] == s[i + 1..];
    SortStep(s, i, cmp);
    InsertInPlace(a, i, cmp);
  }

  /** The source's `copy.sort(cmp)`, as a stable insertion sort. */
  method SortInPlace<T>(a: array<T>, cmp: (T, T) -> int)
    modifies a
    ensures a[..] == Sort(old(a[..]), cmp)
  {
    ghost var s := a[..];
    var i := 0;
    assert s[..0] == [] && s[0..] == s;
    while i < a.Length
      invariant 0 <= i <= a.Length == |s|
      invariant a[..] == Sort(s[..i], cmp) + s[i..]
    {
      SortOneMore(a, i, cmp, s);
      i := i + 1;
    }
    assert s[..a.Length] == s;
  }

  /** A list that holds the elements of `s` back to front is `Reversed(s)`. */
  lemma ReversedPointwise<T>(cur: seq<T>, s: seq<T>)
    requires |cur| == |s|
    requires forall k :: 0 <= k < |s| ==> cur[k] == s[|s| - 1 - k]
    ensures cur == Reversed(s)
  {
    var r := Reversed(s);
    assert forall k :: 0 <= k < |s| ==> cur[k] == r[k];
  }

  /** The array contents ReverseInPlace leaves, read position by position. */
  lemma ReversedFrom<T>(cur: seq<T>, s: seq<T>, i: nat)
    requires |cur| == |s| && 2 * i <= |s| <= 2 * i + 1
    requires forall k :: 0 <= k < i ==> cur[k] == s[|s| - 1 - k]
    requires forall k :: |s| - i <= k < |s| ==> cur[k] == s[|s| - 1 - k]
    requires forall k :: i <= k < |s| - i ==> cur[k] == s[k]
    ensures cur == Reversed(s)
  {
    forall k | 0 <= k < |s|
      ensures cur[k] == s[|s| - 1 - k]
    {
      if i <= k < |s| - i {
        assert k == |s| - 1 - k;
      }
    }
    ReversedPointwise(cur, s);
  }

  /** The source's `copy.reverse()`. */
  method ReverseInPlace<T>(a: array<T>)
    modifies a
    ensures a[..] == Reversed(old(a[..]))
  {
    ghost var s := a[..];
    var n := a.Length;
    var i := 0;
    while i < n / 2
      invariant 0 <= i <= n / 2
      invariant forall k :: 0 <= k < i ==> a[k] == s[n - 1 - k]
      invariant forall k :: n - i <= k < n ==> a[k] == s[n - 1 - k]
      invariant forall k :: i <= k < n - i ==> a[k] == s[k]
    {
      a[i], a[n - 1 - i] := a[n - 1 - i], a[i];
      i := i + 1;
    }
    assert 2 * i <= n <= 2 * i + 1;
    ReversedFrom(a[..], s, i);
  }
}
