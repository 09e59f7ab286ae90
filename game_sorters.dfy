/**
 * `sortUnmetGames` (src/helpers/gameSorters.ts): drop trashed games, then list the
 * games with a deadline, earliest first, before the games without one, most asks
 * first. The two parts are local arrays sorted in place.
 */
module GameSorters {
  import opened JsBuiltins
  import opened Types
  import opened Sorting

  predicate NotTrashed(g: Game) { !g.trashed }
  predicate HasDeadline(g: Game) { g.deadline.Some? }
  predicate NoDeadline(g: Game) { !g.deadline.Some? }

  /**
   * The deadline comparator, `t1 - t2 <= 0` with a missing deadline read as
   * `Infinity`: `Infinity - Infinity` is `NaN`, which the sort treats as 0.
   */
  predicate DeadlineLe(a: Game, b: Game) {
    match (a.deadline, b.deadline)
    case (Some(t1), Some(t2)) => t1 - t2 <= 0
    case (Some(_), None) => true
    case (None, None) => true
    case (None, Some(_)) => false
  }

  /** The ask comparator, `b.asks.length - a.asks.length <= 0`. */
  predicate AsksLe(a: Game, b: Game) {
    |b.asks| - |a.asks| <= 0
  }

  /** The games kept by the first filter. */
  function Kept(games: seq<Game>): seq<Game> {
    Filter(games, NotTrashed)
  }

  /** What `sortUnmetGames` returns. */
  function UnmetGames(games: seq<Game>): seq<Game> {
    InsertionSort(Filter(Kept(games), HasDeadline), DeadlineLe)
      + InsertionSort(Filter(Kept(games), NoDeadline), AsksLe)
  }

  /** `sortUnmetGames`: the filters, then the two in-place sorts, then the concatenation. */
  method SortUnmetGames(games: seq<Game>) returns (r: seq<Game>)
    ensures r == UnmetGames(games)
  {
    var filtered := Filter(games, NotTrashed);
    var withDeadline := Filter(filtered, HasDeadline);
    var withoutDeadline := Filter(filtered, NoDeadline);
    var gamesWithDeadline := new Game[|withDeadline|](i requires 0 <= i < |withDeadline| => withDeadline[i]);
    var gamesWithoutDeadline := new Game[|withoutDeadline|](i requires 0 <= i < |withoutDeadline| => withoutDeadline[i]);
    assert gamesWithDeadline[..] == withDeadline;
    assert gamesWithoutDeadline[..] == withoutDeadline;
    SortInPlace(gamesWithDeadline, DeadlineLe);
    SortInPlace(gamesWithoutDeadline, AsksLe);
    r := gamesWithDeadline[..] + gamesWithoutDeadline[..];
  }

  // ---------------------------------------------------------------------
  // The comparators are consistent.
  // ---------------------------------------------------------------------

  lemma DeadlineOrder()
    ensures TotalPreorder(DeadlineLe)
  {
  }

  lemma AsksOrder()
    ensures TotalPreorder(AsksLe)
  {
  }

  /** Two games compare equal under the ask comparator exactly when their ask counts are equal. */
  lemma AsksEquivalent(a: Game, b: Game)
    ensures Equivalent(AsksLe, a, b) <==> |a.asks| == |b.asks|
  {
  }

  // ---------------------------------------------------------------------
  // What the result holds and in what order.
  // ---------------------------------------------------------------------

  /** The result is a permutation of the games that are not trashed. */
  lemma UnmetGamesPermutes(games: seq<Game>)
    ensures multiset(UnmetGames(games)) == multiset(Kept(games))
    ensures forall g :: g in UnmetGames(games) <==> g in games && !g.trashed
  {
    var kept := Kept(games);
    SortPermutes(Filter(kept, HasDeadline), DeadlineLe);
    SortPermutes(Filter(kept, NoDeadline), AsksLe);
    FilterPartition(kept, HasDeadline, NoDeadline);
    forall g ensures g in UnmetGames(games) <==> g in games && !g.trashed {
      assert g in UnmetGames(games) <==> g in multiset(UnmetGames(games));
      FilterMembers(games, NotTrashed, g);
    }
  }

  /** Every game with a deadline comes before every game without one. */
  lemma DeadlinesFirst(games: seq<Game>)
    ensures var r := UnmetGames(games);
            forall i, j :: 0 <= i < j < |r| && r[j].deadline.Some? ==> r[i].deadline.Some?
  {
    var part := Filter(Kept(games), HasDeadline);
    SortPermutes(part, DeadlineLe);
    SortMembers(part, DeadlineLe);
    SortMembers(Filter(Kept(games), NoDeadline), AsksLe);
    var r := UnmetGames(games);
    var n := |InsertionSort(part, DeadlineLe)|;
    forall k | 0 <= k < |r| ensures r[k].deadline.Some? <==> k < n {
      if k < n {
        assert r[k] in part;
      } else {
        assert r[k] in Filter(Kept(games), NoDeadline);
      }
    }
  }

  /** The result splits at the first game without a deadline into the two sorted parts. */
  lemma UnmetGamesParts(games: seq<Game>)
    ensures Filter(UnmetGames(games), HasDeadline) == InsertionSort(Filter(Kept(games), HasDeadline), DeadlineLe)
    ensures Filter(UnmetGames(games), NoDeadline) == InsertionSort(Filter(Kept(games), NoDeadline), AsksLe)
  {
    var first := InsertionSort(Filter(Kept(games), HasDeadline), DeadlineLe);
    var second := InsertionSort(Filter(Kept(games), NoDeadline), AsksLe);
    SortMembers(Filter(Kept(games), HasDeadline), DeadlineLe);
    SortMembers(Filter(Kept(games), NoDeadline), AsksLe);
    assert forall k :: 0 <= k < |first| ==> HasDeadline(first[k]) by {
      forall k | 0 <= k < |first| ensures HasDeadline(first[k]) {
        assert first[k] in Filter(Kept(games), HasDeadline);
      }
    }
    assert forall k :: 0 <= k < |second| ==> NoDeadline(second[k]) by {
      forall k | 0 <= k < |second| ensures NoDeadline(second[k]) {
        assert second[k] in Filter(Kept(games), NoDeadline);
      }
    }
    SplitByDeadline(first, second);
  }

  /** Games with deadlines followed by games without separate again under the two filters. */
  lemma SplitByDeadline(first: seq<Game>, second: seq<Game>)
    requires forall k :: 0 <= k < |first| ==> HasDeadline(first[k])
    requires forall k :: 0 <= k < |second| ==> NoDeadline(second[k])
    ensures Filter(first + second, HasDeadline) == first
    ensures Filter(first + second, NoDeadline) == second
  {
    FilterAppend(first, second, HasDeadline);
    FilterAppend(first, second, NoDeadline);
    FilterAll(first, HasDeadline);
    FilterNone(second, HasDeadline);
    FilterNone(first, NoDeadline);
    FilterAll(second, NoDeadline);
  }

  /** Games with a deadline are in ascending order of deadline. */
  lemma DeadlinesAscending(games: seq<Game>)
    ensures var r := Filter(UnmetGames(games), HasDeadline);
            forall i, j :: 0 <= i < j < |r| ==> r[i].deadline.value <= r[j].deadline.value
  {
    UnmetGamesParts(games);
    DeadlineOrder();
    SortSorted(Filter(Kept(games), HasDeadline), DeadlineLe);
  }

  /** Games without a deadline are in descending order of their number of asks. */
  lemma AsksDescending(games: seq<Game>)
    ensures var r := Filter(UnmetGames(games), NoDeadline);
            forall i, j :: 0 <= i < j < |r| ==> |r[i].asks| >= |r[j].asks|
  {
    UnmetGamesParts(games);
    AsksOrder();
    SortSorted(Filter(Kept(games), NoDeadline), AsksLe);
  }

  /**
   * Games without a deadline and with the same number of asks keep their input
   * order, and so do games with the same deadline.
   */
  lemma UnmetGamesStable(games: seq<Game>, e: Game)
    ensures EquivalentTo(Filter(UnmetGames(games), NoDeadline), e, AsksLe)
            == EquivalentTo(Filter(Kept(games), NoDeadline), e, AsksLe)
    ensures EquivalentTo(Filter(UnmetGames(games), HasDeadline), e, DeadlineLe)
            == EquivalentTo(Filter(Kept(games), HasDeadline), e, DeadlineLe)
  {
    UnmetGamesParts(games);
    SortStable(Filter(Kept(games), NoDeadline), e, AsksLe);
    SortStable(Filter(Kept(games), HasDeadline), e, DeadlineLe);
  }

  /** Nothing in, nothing out. */
  lemma UnmetGamesEmpty()
    ensures UnmetGames([]) == []
  {
  }

  /**
   * Five games: three without a deadline (1, 2 and 5 asks) and two with one; the
   * earlier deadline first, then the others by ask count.
   */
  lemma MixedExample(a: Game, b: Game, c: Game, d: Game, e: Game)
    requires !a.trashed && !b.trashed && !c.trashed && !d.trashed && !e.trashed
    requires a.deadline.None? && c.deadline.None? && e.deadline.None?
    requires b.deadline.Some? && d.deadline.Some? && b.deadline.value < d.deadline.value
    requires |a.asks| == 1 && |c.asks| == 2 && |e.asks| == 5
    ensures UnmetGames([a, b, c, d, e]) == [b, d, e, c, a]
  {
    var games := [a, b, c, d, e];
    calc {
      UnmetGames(games);
      { FilterAll(games, NotTrashed); }
      InsertionSort(Filter(games, HasDeadline), DeadlineLe) + InsertionSort(Filter(games, NoDeadline), AsksLe);
      { ExampleDeadlineFilter(a, b, c, d, e); ExampleNoDeadlineFilter(a, b, c, d, e); }
      InsertionSort([b, d], DeadlineLe) + InsertionSort([a, c, e], AsksLe);
      { ExampleDeadlineSort(b, d); ExampleAsksSort(a, c, e); }
      [b, d] + [e, c, a];
    }
  }

  lemma ExampleDeadlineFilter(a: Game, b: Game, c: Game, d: Game, e: Game)
    requires a.deadline.None? && c.deadline.None? && e.deadline.None?
    requires b.deadline.Some? && d.deadline.Some?
    ensures Filter([a, b, c, d, e], HasDeadline) == [b, d]
  {
    assert [a, b, c, d, e][..4] == [a, b, c, d] && [a, b, c, d][..3] == [a, b, c];
    assert [a, b, c][..2] == [a, b] && [a, b][..1] == [a] && [a][..0] == [];
    assert Filter([a], HasDeadline) == [];
    assert Filter([a, b], HasDeadline) == [b];
    assert Filter([a, b, c], HasDeadline) == [b];
    assert Filter([a, b, c, d], HasDeadline) == [b, d];
  }

  lemma ExampleNoDeadlineFilter(a: Game, b: Game, c: Game, d: Game, e: Game)
    requires a.deadline.None? && c.deadline.None? && e.deadline.None?
    requires b.deadline.Some? && d.deadline.Some?
    ensures Filter([a, b, c, d, e], NoDeadline) == [a, c, e]
  {
    assert [a, b, c, d, e][..4] == [a, b, c, d] && [a, b, c, d][..3] == [a, b, c];
    assert [a, b, c][..2] == [a, b] && [a, b][..1] == [a] && [a][..0] == [];
    assert Filter([a], NoDeadline) == [a];
    assert Filter([a, b], NoDeadline) == [a];
    assert Filter([a, b, c], NoDeadline) == [a, c];
    assert Filter([a, b, c, d], NoDeadline) == [a, c];
  }

  /** Two games with deadlines come out earlier deadline first; equal deadlines keep their order. */
  lemma ExampleDeadlineSort(x: Game, y: Game)
    requires x.deadline.Some? && y.deadline.Some?
    ensures InsertionSort([x, y], DeadlineLe)
            == if x.deadline.value <= y.deadline.value then [x, y] else [y, x]
  {
    assert [x, y][..1] == [x] && [x][..0] == [];
    assert InsertionSort([x], DeadlineLe) == [x];
    if x.deadline.value > y.deadline.value {
      assert [x][..0] == [];
      assert InsertBack(y, [x], DeadlineLe) == InsertBack(y, [], DeadlineLe) + [x];
    }
  }

  /**
   * The test's second case: game A is due in two days and B in one; given A first,
   * the result is B, A.
   */
  lemma EarlierDeadlineFirst(gameA: Game, gameB: Game)
    requires !gameA.trashed && !gameB.trashed
    requires gameA.deadline.Some? && gameB.deadline.Some?
    requires gameB.deadline.value < gameA.deadline.value
    ensures UnmetGames([gameA, gameB]) == [gameB, gameA]
  {
    var games := [gameA, gameB];
    calc {
      UnmetGames(games);
      { FilterAll(games, NotTrashed); }
      InsertionSort(Filter(games, HasDeadline), DeadlineLe) + InsertionSort(Filter(games, NoDeadline), AsksLe);
      { FilterAll(games, HasDeadline); FilterNone(games, NoDeadline); }
      InsertionSort(games, DeadlineLe) + InsertionSort([], AsksLe);
      { ExampleDeadlineSort(gameA, gameB); }
      [gameB, gameA];
    }
  }

  /**
   * The test's first case: game A has a deadline and B none; given B first, the
   * result is A, B.
   */
  lemma DeadlineBeforeNone(gameA: Game, gameB: Game)
    requires !gameA.trashed && !gameB.trashed
    requires gameA.deadline.Some? && gameB.deadline.None?
    ensures UnmetGames([gameB, gameA]) == [gameA, gameB]
  {
    var games := [gameB, gameA];
    assert Filter(games, HasDeadline) == [gameA] by {
      assert games[..1] == [gameB] && [gameB][..0] == [];
    }
    assert Filter(games, NoDeadline) == [gameB] by {
      assert games[..1] == [gameB] && [gameB][..0] == [];
    }
    calc {
      UnmetGames(games);
      { FilterAll(games, NotTrashed); }
      InsertionSort(Filter(games, HasDeadline), DeadlineLe) + InsertionSort(Filter(games, NoDeadline), AsksLe);
      InsertionSort([gameA], DeadlineLe) + InsertionSort([gameB], AsksLe);
      { assert [gameA][..0] == [] && [gameB][..0] == []; }
      [gameA] + [gameB];
    }
  }

  lemma ExampleAsksSort(a: Game, c: Game, e: Game)
    requires |a.asks| == 1 && |c.asks| == 2 && |e.asks| == 5
    ensures InsertionSort([a, c, e], AsksLe) == [e, c, a]
  {
    assert [a, c, e][..2] == [a, c] && [a, c][..1] == [a] && [a][..0] == [];
    assert InsertionSort([a], AsksLe) == [a];
    assert InsertBack(c, [a], AsksLe) == [c, a];
    assert InsertionSort([a, c], AsksLe) == [c, a];
    assert InsertBack(e, [c, a], AsksLe) == [e, c, a] by {
      assert [c, a][..1] == [c] && [c][..0] == [];
      assert InsertBack(e, [c], AsksLe) == [e, c];
    }
  }
}
