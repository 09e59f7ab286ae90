/**
 * `Array.prototype.sort` with a comparator: a stable sort. It is modelled by
 * insertion sort, where `le(a, b)` stands for `compare(a, b) <= 0`, i.e. "a may
 * stay before b". For a comparator that is a total preorder every stable sort
 * gives the same result (SortedStableUnique), so the engine's own algorithm and
 * this one agree.
 */
module Sorting {

  /** `le` is total and transitive: a consistent comparator. */
  ghost predicate TotalPreorder<T(!new)>(le: (T, T) -> bool) {
    && (forall a, b :: le(a, b) || le(b, a))
    && (forall a, b, c :: le(a, b) && le(b, c) ==> le(a, c))
  }

  /** Every element may stay before every later one. */
  ghost predicate Sorted<T>(s: seq<T>, le: (T, T) -> bool) {
    forall i, j :: 0 <= i < j < |s| ==> le(s[i], s[j])
  }

  /** `x` and `y` compare equal. */
  predicate Equivalent<T>(le: (T, T) -> bool, x: T, y: T) {
    le(x, y) && le(y, x)
  }

  /** The elements of `s` that compare equal to `e`, in their order in `s`. */
  function EquivalentTo<T>(s: seq<T>, e: T, le: (T, T) -> bool): (r: seq<T>)
    ensures |r| <= |s|
    ensures forall k :: 0 <= k < |r| ==> r[k] in s && Equivalent(le, r[k], e)
  {
    if |s| == 0 then []
    else EquivalentTo(s[..|s| - 1], e, le) + (if Equivalent(le, s[|s| - 1], e) then [s[|s| - 1]] else [])
  }

  /**
   * One step of insertion sort, as the in-place loop does it: `x` moves left past
   * every trailing element that must come after it, and stops behind the first
   * one that may stay before it.
   */
  function InsertBack<T>(x: T, t: seq<T>, le: (T, T) -> bool): seq<T>
    decreases |t|
  {
    if |t| == 0 then [x]
    else if le(t[|t| - 1], x) then t + [x]
    else InsertBack(x, t[..|t| - 1], le) + [t[|t| - 1]]
  }

  /** The stable sort of `s` under `le`. */
  function InsertionSort<T>(s: seq<T>, le: (T, T) -> bool): seq<T> {
    if |s| == 0 then [] else InsertBack(s[|s| - 1], InsertionSort(s[..|s| - 1], le), le)
  }

  // ---------------------------------------------------------------------
  // Permutation.
  // ---------------------------------------------------------------------

  lemma {:induction false} InsertBackPermutes<T>(x: T, t: seq<T>, le: (T, T) -> bool)
    ensures multiset(InsertBack(x, t, le)) == multiset(t) + multiset{x}
    ensures |InsertBack(x, t, le)| == |t| + 1
    decreases |t|
  {
    if |t| > 0 && !le(t[|t| - 1], x) {
      InsertBackPermutes(x, t[..|t| - 1], le);
      assert t == t[..|t| - 1] + [t[|t| - 1]];
    }
  }

  /** Sorting only reorders: the output is a permutation of the input. */
  lemma {:induction false} SortPermutes<T>(s: seq<T>, le: (T, T) -> bool)
    ensures multiset(InsertionSort(s, le)) == multiset(s)
    ensures |InsertionSort(s, le)| == |s|
  {
    if |s| > 0 {
      SortPermutes(s[..|s| - 1], le);
      InsertBackPermutes(s[|s| - 1], InsertionSort(s[..|s| - 1], le), le);
      assert s == s[..|s| - 1] + [s[|s| - 1]];
    }
  }

  /** Elements of the output are elements of the input, and the other way round. */
  lemma SortMembers<T>(s: seq<T>, le: (T, T) -> bool)
    ensures forall x :: x in InsertionSort(s, le) <==> x in s
  {
    SortPermutes(s, le);
    forall x ensures x in InsertionSort(s, le) <==> x in s {
      assert x in InsertionSort(s, le) <==> x in multiset(InsertionSort(s, le));
      assert x in s <==> x in multiset(s);
    }
  }

  // ---------------------------------------------------------------------
  // Order.
  // ---------------------------------------------------------------------

  lemma {:induction false} InsertBackSorted<T(!new)>(x: T, t: seq<T>, le: (T, T) -> bool)
    requires TotalPreorder(le)
    requires Sorted(t, le)
    ensures Sorted(InsertBack(x, t, le), le)
    ensures forall k :: 0 <= k < |InsertBack(x, t, le)| ==> InsertBack(x, t, le)[k] == x || InsertBack(x, t, le)[k] in t
    decreases |t|
  {
    InsertBackPermutes(x, t, le);
    if |t| > 0 && !le(t[|t| - 1], x) {
      var init := t[..|t| - 1];
      var last := t[|t| - 1];
      InsertBackSorted(x, init, le);
      var u := InsertBack(x, init, le);
      assert le(x, last);
      forall k | 0 <= k < |u| ensures le(u[k], last) {
        if u[k] != x {
          var m :| 0 <= m < |init| && init[m] == u[k];
          assert t[m] == init[m];
        }
      }
    }
  }

  /** The output is sorted when the comparator is consistent. */
  lemma {:induction false} SortSorted<T(!new)>(s: seq<T>, le: (T, T) -> bool)
    requires TotalPreorder(le)
    ensures Sorted(InsertionSort(s, le), le)
  {
    if |s| > 0 {
      SortSorted(s[..|s| - 1], le);
      InsertBackSorted(s[|s| - 1], InsertionSort(s[..|s| - 1], le), le);
    }
  }

  /** Sorting a sorted list changes nothing, whatever the comparator. */
  lemma {:induction false} SortedUnchanged<T>(s: seq<T>, le: (T, T) -> bool)
    requires Sorted(s, le)
    ensures InsertionSort(s, le) == s
  {
    if |s| > 0 {
      var init := s[..|s| - 1];
      assert Sorted(init, le);
      SortedUnchanged(init, le);
      assert s == init + [s[|s| - 1]];
      if |init| > 0 {
        assert le(init[|init| - 1], s[|s| - 1]);
      }
    }
  }

  /** Sorting twice is sorting once. */
  lemma SortIdempotent<T(!new)>(s: seq<T>, le: (T, T) -> bool)
    requires TotalPreorder(le)
    ensures InsertionSort(InsertionSort(s, le), le) == InsertionSort(s, le)
  {
    SortSorted(s, le);
    SortedUnchanged(InsertionSort(s, le), le);
  }

  // ---------------------------------------------------------------------
  // Stability.
  // ---------------------------------------------------------------------

  lemma {:induction false} EquivalentToAppend<T>(a: seq<T>, b: seq<T>, e: T, le: (T, T) -> bool)
    ensures EquivalentTo(a + b, e, le) == EquivalentTo(a, e, le) + EquivalentTo(b, e, le)
    decreases |b|
  {
    if |b| == 0 {
      assert a + b == a;
    } else {
      var b' := b[..|b| - 1];
      EquivalentToAppend(a, b', e, le);
      assert (a + b)[..|a + b| - 1] == a + b';
      assert (a + b)[|a + b| - 1] == b[|b| - 1];
    }
  }

  lemma EquivalentToSingle<T>(y: T, e: T, le: (T, T) -> bool)
    ensures EquivalentTo([y], e, le) == if Equivalent(le, y, e) then [y] else []
  {
    assert [y][..0] == [];
  }

  /** An element that must come after `x` is not in the same class as `x`. */
  lemma NotBothEquivalent<T>(x: T, y: T, e: T, le: (T, T) -> bool)
    requires forall a, b, c :: le(a, b) && le(b, c) ==> le(a, c)
    requires !le(y, x)
    ensures !(Equivalent(le, x, e) && Equivalent(le, y, e))
  {
  }

  lemma {:induction false} InsertBackStable<T>(x: T, t: seq<T>, e: T, le: (T, T) -> bool)
    requires forall a, b, c :: le(a, b) && le(b, c) ==> le(a, c)
    ensures EquivalentTo(InsertBack(x, t, le), e, le) == EquivalentTo(t + [x], e, le)
    decreases |t|
  {
    if |t| > 0 && !le(t[|t| - 1], x) {
      var init := t[..|t| - 1];
      var last := t[|t| - 1];
      var u := InsertBack(x, init, le);
      InsertBackStable(x, init, e, le);
      NotBothEquivalent(x, last, e, le);
      StableStep(x, last, init, u, e, le);
    }
  }

  lemma StableStep<T>(x: T, last: T, init: seq<T>, u: seq<T>, e: T, le: (T, T) -> bool)
    requires !(Equivalent(le, x, e) && Equivalent(le, last, e))
    requires EquivalentTo(u, e, le) == EquivalentTo(init + [x], e, le)
    ensures EquivalentTo(u + [last], e, le) == EquivalentTo(init + [last] + [x], e, le)
  {
    var ei, ex, el := EquivalentTo(init, e, le), EquivalentTo([x], e, le), EquivalentTo([last], e, le);
    EquivalentToSingle(x, e, le);
    EquivalentToSingle(last, e, le);
    EquivalentToAppend(u, [last], e, le);
    EquivalentToAppend(init, [x], e, le);
    EquivalentToAppend(init, [last], e, le);
    EquivalentToAppend(init + [last], [x], e, le);
    SwapEmpty(ei, ex, el, EquivalentTo(u + [last], e, le), EquivalentTo(init + [last] + [x], e, le));
  }

  /** Two pieces of which one is empty may trade places. */
  lemma SwapEmpty<S>(a: seq<S>, b: seq<S>, c: seq<S>, l: seq<S>, m: seq<S>)
    requires l == a + b + c && m == a + c + b
    requires b == [] || c == []
    ensures l == m
  {
    if b == [] {
      assert a + b == a && a + c + b == a + c;
    } else {
      assert a + b + c == a + b && a + c == a;
    }
  }

  /**
   * The sort is stable: the elements that compare equal to any given element keep
   * their input order.
   */
  lemma {:induction false} SortStable<T>(s: seq<T>, e: T, le: (T, T) -> bool)
    requires forall a, b, c :: le(a, b) && le(b, c) ==> le(a, c)
    ensures EquivalentTo(InsertionSort(s, le), e, le) == EquivalentTo(s, e, le)
  {
    if |s| > 0 {
      var init, last := s[..|s| - 1], s[|s| - 1];
      SortStable(init, e, le);
      assert s == init + [last];
      SortStableStep(init, last, e, le);
    }
  }

  /** Inserting one more element keeps the classes, given that sorting the prefix did. */
  lemma SortStableStep<T>(init: seq<T>, last: T, e: T, le: (T, T) -> bool)
    requires forall a, b, c :: le(a, b) && le(b, c) ==> le(a, c)
    requires EquivalentTo(InsertionSort(init, le), e, le) == EquivalentTo(init, e, le)
    ensures EquivalentTo(InsertionSort(init + [last], le), e, le) == EquivalentTo(init + [last], e, le)
  {
    var s := init + [last];
    assert s[..|s| - 1] == init && s[|s| - 1] == last;
    var sorted := InsertionSort(init, le);
    InsertBackStable(last, sorted, e, le);
    EquivalentToAppend(sorted, [last], e, le);
    EquivalentToAppend(init, [last], e, le);
    ClassesAfterInsert(EquivalentTo(InsertionSort(s, le), e, le), EquivalentTo(sorted + [last], e, le),
                       EquivalentTo(sorted, e, le), EquivalentTo([last], e, le),
                       EquivalentTo(init, e, le), EquivalentTo(s, e, le));
  }

  /** The classes after one insertion step, chained: sorting kept the classes of the prefix. */
  lemma ClassesAfterInsert<S>(sortedAll: seq<S>, appended: seq<S>, sortedInit: seq<S>, single: seq<S>,
                              init: seq<S>, all: seq<S>)
    requires sortedAll == appended && appended == sortedInit + single
    requires sortedInit == init && all == init + single
    ensures sortedAll == all
  {
  }

  /**
   * Two sorted lists that hold the same elements of every equivalence class in the
   * same order are equal: a consistent comparator leaves a stable sort no choice.
   */
  lemma {:induction false} SortedStableUnique<T(!new)>(r: seq<T>, q: seq<T>, le: (T, T) -> bool)
    requires TotalPreorder(le)
    requires Sorted(r, le) && Sorted(q, le)
    requires forall e :: EquivalentTo(r, e, le) == EquivalentTo(q, e, le)
    ensures r == q
    decreases |r|
  {
    SameClassesEmpty(r, q, le);
    if |r| > 0 {
      SameLast(r, q, le);
      var a := r[|r| - 1];
      var r', q' := r[..|r| - 1], q[..|q| - 1];
      assert r == r' + [a] && q == q' + [a];
      SameClassesPrefix(r', q', a, le);
      assert Sorted(r', le) && Sorted(q', le);
      SortedStableUnique(r', q', le);
      assert r == r' + [a] && q == q' + [a];
    }
  }

  /** Lists with the same classes are both empty or both not. */
  lemma SameClassesEmpty<T(!new)>(r: seq<T>, q: seq<T>, le: (T, T) -> bool)
    requires TotalPreorder(le)
    requires forall e :: EquivalentTo(r, e, le) == EquivalentTo(q, e, le)
    ensures |r| == 0 <==> |q| == 0
  {
    if |r| > 0 {
      NonEmptyClass(r, le);
      assert EquivalentTo(r, r[|r| - 1], le) == EquivalentTo(q, r[|r| - 1], le);
    }
    if |q| > 0 {
      NonEmptyClass(q, le);
      assert EquivalentTo(r, q[|q| - 1], le) == EquivalentTo(q, q[|q| - 1], le);
    }
  }

  /** Sorted lists with the same classes end with the same element. */
  lemma SameLast<T(!new)>(r: seq<T>, q: seq<T>, le: (T, T) -> bool)
    requires TotalPreorder(le)
    requires Sorted(r, le) && Sorted(q, le)
    requires |r| > 0 && |q| > 0
    requires forall e :: EquivalentTo(r, e, le) == EquivalentTo(q, e, le)
    ensures r[|r| - 1] == q[|q| - 1]
  {
    var a, b := r[|r| - 1], q[|q| - 1];
    assert le(a, a) && le(b, b);
    assert EquivalentTo(r, a, le) == EquivalentTo(q, a, le);
    assert EquivalentTo(q, b, le) == EquivalentTo(r, b, le);
    LastInOther(r, q, le);
    LastInOther(q, r, le);
    BelowLast(q, a, le);
    BelowLast(r, b, le);
    LastOfClass(r, q, a, b, le);
  }

  /** The last element of `r` is in every list with the same class of it. */
  lemma LastInOther<T>(r: seq<T>, q: seq<T>, le: (T, T) -> bool)
    requires |r| > 0 && le(r[|r| - 1], r[|r| - 1])
    requires EquivalentTo(r, r[|r| - 1], le) == EquivalentTo(q, r[|r| - 1], le)
    ensures r[|r| - 1] in q
  {
    var a := r[|r| - 1];
    var fa := EquivalentTo(q, a, le);
    assert EquivalentTo(r, a, le) == EquivalentTo(r[..|r| - 1], a, le) + [a];
    assert fa[|fa| - 1] == a;
  }

  /** In a sorted list every member may stay before the last element. */
  lemma BelowLast<T>(q: seq<T>, a: T, le: (T, T) -> bool)
    requires Sorted(q, le) && |q| > 0 && a in q && le(q[|q| - 1], q[|q| - 1])
    ensures le(a, q[|q| - 1])
  {
    var i :| 0 <= i < |q| && q[i] == a;
    if i < |q| - 1 {
      assert le(q[i], q[|q| - 1]);
    }
  }

  /** Two equivalent last elements of lists with the same class are the same element. */
  lemma LastOfClass<T>(r: seq<T>, q: seq<T>, a: T, b: T, le: (T, T) -> bool)
    requires |r| > 0 && |q| > 0 && a == r[|r| - 1] && b == q[|q| - 1]
    requires le(a, b) && le(b, a) && le(a, a)
    requires EquivalentTo(r, a, le) == EquivalentTo(q, a, le)
    ensures a == b
  {
    var fa := EquivalentTo(r, a, le);
    assert fa == EquivalentTo(r[..|r| - 1], a, le) + [a];
    assert fa == EquivalentTo(q[..|q| - 1], a, le) + [b];
    assert fa[|fa| - 1] == a;
  }

  /** Dropping the same last element keeps the classes equal. */
  lemma SameClassesPrefix<T>(r: seq<T>, q: seq<T>, a: T, le: (T, T) -> bool)
    requires forall e :: EquivalentTo(r + [a], e, le) == EquivalentTo(q + [a], e, le)
    ensures forall e :: EquivalentTo(r, e, le) == EquivalentTo(q, e, le)
  {
    forall e ensures EquivalentTo(r, e, le) == EquivalentTo(q, e, le) {
      var fr, fq := EquivalentTo(r + [a], e, le), EquivalentTo(q + [a], e, le);
      assert (r + [a])[..|r|] == r && (q + [a])[..|q|] == q;
      assert fr == fq;
      if Equivalent(le, a, e) {
        assert fr == EquivalentTo(r, e, le) + [a];
        assert fq == EquivalentTo(q, e, le) + [a];
        assert EquivalentTo(r, e, le) == fr[..|fr| - 1];
        assert EquivalentTo(q, e, le) == fq[..|fq| - 1];
      } else {
        assert fr == EquivalentTo(r, e, le);
        assert fq == EquivalentTo(q, e, le);
      }
    }
  }

  /** The last element of a list is in its own class, when `le` is reflexive on it. */
  lemma NonEmptyClass<T>(s: seq<T>, le: (T, T) -> bool)
    requires |s| > 0 && le(s[|s| - 1], s[|s| - 1])
    ensures |EquivalentTo(s, s[|s| - 1], le)| > 0
  {
  }

  /** Any sorted stable rearrangement of `s` is the insertion sort of `s`. */
  lemma StableSortIsInsertionSort<T(!new)>(s: seq<T>, r: seq<T>, le: (T, T) -> bool)
    requires TotalPreorder(le)
    requires Sorted(r, le)
    requires forall e :: EquivalentTo(r, e, le) == EquivalentTo(s, e, le)
    ensures r == InsertionSort(s, le)
  {
    SortSorted(s, le);
    forall e ensures EquivalentTo(r, e, le) == EquivalentTo(InsertionSort(s, le), e, le) {
      SortStable(s, e, le);
    }
    SortedStableUnique(r, InsertionSort(s, le), le);
  }

  // ---------------------------------------------------------------------
  // The in-place sort.
  // ---------------------------------------------------------------------

  /** Sorts `a` in place, as `array.sort(compare)` does. */
  method SortInPlace<T>(a: array<T>, le: (T, T) -> bool)
    modifies a
    ensures a[..] == InsertionSort(old(a[..]), le)
  {
    ghost var input := a[..];
    var i := 0;
    while i < a.Length
      invariant 0 <= i <= a.Length
      invariant a[..i] == InsertionSort(input[..i], le)
      invariant a[i..] == input[i..]
    {
      assert input[..i + 1] == input[..i] + [input[i]];
      InsertInPlace(a, i, le);
      i := i + 1;
    }
    assert input[..a.Length] == input;
  }

  /** Moves `a[i]` left into place among `a[..i]`: one pass of the insertion sort. */
  method InsertInPlace<T>(a: array<T>, i: nat, le: (T, T) -> bool)
    requires i < a.Length
    modifies a
    ensures a[..i + 1] == InsertBack(old(a[i]), old(a[..i]), le)
    ensures a[i + 1..] == old(a[i + 1..])
  {
    ghost var done := a[..i];
    var x := a[i];
    var j := i;
    assert done[..j] == done && done[j..] == [];
    while j > 0 && !le(a[j - 1], x)
      invariant 0 <= j <= i
      invariant forall k :: 0 <= k < j ==> a[k] == done[k]
      invariant forall k :: j < k <= i ==> a[k] == done[k - 1]
      invariant a[i + 1..] == old(a[i + 1..])
      invariant InsertBack(x, done, le) == InsertBack(x, done[..j], le) + done[j..]
    {
      var y := a[j - 1];
      assert y == done[j - 1] && !le(y, x);
      a[j] := y;
      j := j - 1;
      InsertBackStep(x, done, j, le);
    }
    a[j] := x;
    InsertBackStop(x, done, j, le);
    Placed(a[..], done, x, j);
  }

  /** `x` written at `j` between the unmoved front and the shifted back of `done`. */
  lemma Placed<T>(s: seq<T>, done: seq<T>, x: T, j: nat)
    requires j <= |done| < |s|
    requires forall k :: 0 <= k < j ==> s[k] == done[k]
    requires s[j] == x
    requires forall k :: j < k <= |done| ==> s[k] == done[k - 1]
    ensures s[..|done| + 1] == done[..j] + [x] + done[j..]
  {
  }

  lemma InsertBackStep<T>(x: T, t: seq<T>, j: nat, le: (T, T) -> bool)
    requires j < |t|
    requires !le(t[j], x)
    requires InsertBack(x, t, le) == InsertBack(x, t[..j + 1], le) + t[j + 1..]
    ensures InsertBack(x, t, le) == InsertBack(x, t[..j], le) + t[j..]
  {
    var p := t[..j + 1];
    assert p[..|p| - 1] == t[..j] && p[|p| - 1] == t[j];
    assert InsertBack(x, p, le) == InsertBack(x, t[..j], le) + [t[j]];
    assert t[j..] == [t[j]] + t[j + 1..];
  }

  lemma InsertBackStop<T>(x: T, t: seq<T>, j: nat, le: (T, T) -> bool)
    requires j <= |t|
    requires j == 0 || le(t[j - 1], x)
    ensures InsertBack(x, t[..j], le) == t[..j] + [x]
  {
  }
}
