/**
 * `getAllUniqueTags` (src/helpers/tagUtils.ts): every tag named by a game or by a
 * partner's loved or hated tags, once each, in string order. The tags are gathered
 * into a `Set`, whose insertion order is modelled by a list without repeats, and
 * then copied into an array and sorted.
 */
module TagUtils {
  import opened JsBuiltins
  import opened Types
  import opened Sorting

  /** `set.add(x)`: appended when new, otherwise nothing changes. */
  function SetAdd(s: seq<string>, x: string): (r: seq<string>)
    ensures x in r
    ensures forall y :: y in r <==> y in s || y == x
  {
    if x in s then s else s + [x]
  }

  /** Adding each of `xs` in turn. */
  function AddAll(acc: seq<string>, xs: seq<string>): seq<string> {
    if |xs| == 0 then acc else SetAdd(AddAll(acc, xs[..|xs| - 1]), xs[|xs| - 1])
  }

  /** An absent tag list contributes nothing. */
  function Tags(tags: Option<seq<string>>): seq<string> {
    if tags.Some? then tags.value else []
  }

  /** The tags of the games, game by game. */
  function GamesTags(games: seq<Game>): seq<string> {
    if |games| == 0 then [] else GamesTags(games[..|games| - 1]) + Tags(games[|games| - 1].tags)
  }

  /** The loved and then the hated tags of the partners, partner by partner. */
  function PartnersTags(partners: seq<Partner>): seq<string> {
    if |partners| == 0 then []
    else
      var p := partners[|partners| - 1];
      PartnersTags(partners[..|partners| - 1]) + Tags(p.lovesTags) + Tags(p.hatesTags)
  }

  /** The set, in insertion order, after both loops. */
  function CollectedTags(store: Store): seq<string> {
    AddAll([], GamesTags(store.games) + PartnersTags(store.partners))
  }

  /** What `getAllUniqueTags` returns. */
  function UniqueTags(store: Store): seq<string> {
    InsertionSort(CollectedTags(store), StringLe)
  }

  /** `getAllUniqueTags`: fill the set, then sort a copy of it. */
  method GetAllUniqueTags(store: Store) returns (tags: seq<string>)
    ensures tags == UniqueTags(store)
  {
    var allTags := AddGameTags([], store.games);
    allTags := AddPartnerTags(allTags, store.partners);
    AddAllAppend([], GamesTags(store.games), PartnersTags(store.partners));
    var sorted := new string[|allTags|](k requires 0 <= k < |allTags| => allTags[k]);
    assert sorted[..] == allTags;
    SortInPlace(sorted, StringLe);
    tags := sorted[..];
  }

  /** The first loop: the tags of every game that has a tag list. */
  method AddGameTags(allTags: seq<string>, games: seq<Game>) returns (r: seq<string>)
    ensures r == AddAll(allTags, GamesTags(games))
  {
    r := allTags;
    var i := 0;
    while i < |games|
      invariant 0 <= i <= |games|
      invariant r == AddAll(allTags, GamesTags(games[..i]))
    {
      var game := games[i];
      if game.tags.Some? {
        r := AddEach(r, game.tags.value);
      }
      AddAllAppend(allTags, GamesTags(games[..i]), Tags(game.tags));
      assert games[..i + 1][..i] == games[..i];
      i := i + 1;
    }
    assert games[..i] == games;
  }

  /** The second loop: the loved, then the hated tags of every partner. */
  method AddPartnerTags(allTags: seq<string>, partners: seq<Partner>) returns (r: seq<string>)
    ensures r == AddAll(allTags, PartnersTags(partners))
  {
    r := allTags;
    var i := 0;
    while i < |partners|
      invariant 0 <= i <= |partners|
      invariant r == AddAll(allTags, PartnersTags(partners[..i]))
    {
      var partner := partners[i];
      ghost var before := PartnersTags(partners[..i]);
      if partner.lovesTags.Some? {
        r := AddEach(r, partner.lovesTags.value);
      }
      AddAllAppend(allTags, before, Tags(partner.lovesTags));
      if partner.hatesTags.Some? {
        r := AddEach(r, partner.hatesTags.value);
      }
      AddAllAppend(allTags, before + Tags(partner.lovesTags), Tags(partner.hatesTags));
      assert partners[..i + 1][..i] == partners[..i];
      i := i + 1;
    }
    assert partners[..i] == partners;
  }

  /** One `forEach(tag => allTags.add(tag))`. */
  method AddEach(allTags: seq<string>, xs: seq<string>) returns (r: seq<string>)
    ensures r == AddAll(allTags, xs)
  {
    r := allTags;
    var j := 0;
    while j < |xs|
      invariant 0 <= j <= |xs|
      invariant r == AddAll(allTags, xs[..j])
    {
      if xs[j] !in r {
        r := r + [xs[j]];
      }
      assert xs[..j + 1][..j] == xs[..j];
      j := j + 1;
    }
    assert xs[..j] == xs;
  }

  // ---------------------------------------------------------------------
  // The set.
  // ---------------------------------------------------------------------

  /** Adding a concatenation adds its parts in turn. */
  lemma {:induction false} AddAllAppend(acc: seq<string>, a: seq<string>, b: seq<string>)
    ensures AddAll(acc, a + b) == AddAll(AddAll(acc, a), b)
    decreases |b|
  {
    if |b| == 0 {
      assert a + b == a;
    } else {
      AddAllAppend(acc, a, b[..|b| - 1]);
      assert (a + b)[..|a + b| - 1] == a + b[..|b| - 1];
    }
  }

  /** The set holds what it started with and what was added, nothing else. */
  lemma {:induction false} AddAllMembers(acc: seq<string>, xs: seq<string>, t: string)
    ensures t in AddAll(acc, xs) <==> t in acc || t in xs
  {
    if |xs| > 0 {
      AddAllMembers(acc, xs[..|xs| - 1], t);
      assert xs == xs[..|xs| - 1] + [xs[|xs| - 1]];
    }
  }

  predicate NoRepeats(s: seq<string>) {
    forall i, j :: 0 <= i < j < |s| ==> s[i] != s[j]
  }

  /** A set never holds a value twice. */
  lemma {:induction false} AddAllNoRepeats(acc: seq<string>, xs: seq<string>)
    requires NoRepeats(acc)
    ensures NoRepeats(AddAll(acc, xs))
  {
    if |xs| > 0 {
      AddAllNoRepeats(acc, xs[..|xs| - 1]);
    }
  }

  lemma {:induction false} GamesTagsMembers(games: seq<Game>, t: string)
    ensures t in GamesTags(games) <==> exists i :: 0 <= i < |games| && t in Tags(games[i].tags)
  {
    if |games| > 0 {
      var init := games[..|games| - 1];
      GamesTagsMembers(init, t);
      if exists i :: 0 <= i < |games| && t in Tags(games[i].tags) {
        var i :| 0 <= i < |games| && t in Tags(games[i].tags);
        if i < |init| {
          assert init[i] == games[i];
        }
      }
    }
  }

  lemma {:induction false} PartnersTagsMembers(partners: seq<Partner>, t: string)
    ensures t in PartnersTags(partners) <==>
            exists i :: 0 <= i < |partners| && (t in Tags(partners[i].lovesTags) || t in Tags(partners[i].hatesTags))
  {
    if |partners| > 0 {
      var init := partners[..|partners| - 1];
      PartnersTagsMembers(init, t);
      if exists i :: 0 <= i < |partners| && (t in Tags(partners[i].lovesTags) || t in Tags(partners[i].hatesTags)) {
        var i :| 0 <= i < |partners| && (t in Tags(partners[i].lovesTags) || t in Tags(partners[i].hatesTags));
        if i < |init| {
          assert init[i] == partners[i];
        }
      }
    }
  }

  // ---------------------------------------------------------------------
  // The result.
  // ---------------------------------------------------------------------

  /**
   * A tag is in the result exactly when some game lists it or some partner loves
   * or hates it; an absent list contributes nothing.
   */
  lemma UniqueTagsMembers(store: Store, t: string)
    ensures t in UniqueTags(store) <==>
            (exists i :: 0 <= i < |store.games| && t in Tags(store.games[i].tags))
            || (exists i :: 0 <= i < |store.partners|
                  && (t in Tags(store.partners[i].lovesTags) || t in Tags(store.partners[i].hatesTags)))
  {
    SortMembers(CollectedTags(store), StringLe);
    AddAllMembers([], GamesTags(store.games) + PartnersTags(store.partners), t);
    GamesTagsMembers(store.games, t);
    PartnersTagsMembers(store.partners, t);
  }

  lemma StringOrder()
    ensures TotalPreorder(StringLe)
  {
    forall a, b ensures StringLe(a, b) || StringLe(b, a) {
      StringLeTotal(a, b);
    }
    forall a, b, c | StringLe(a, b) && StringLe(b, c) ensures StringLe(a, c) {
      StringLeTransitive(a, b, c);
    }
  }

  /** Each tag appears once, and the tags are in strictly ascending string order. */
  lemma UniqueTagsOrdered(store: Store)
    ensures NoRepeats(UniqueTags(store))
    ensures var r := UniqueTags(store);
            forall i, j :: 0 <= i < j < |r| ==> StringLe(r[i], r[j]) && r[i] != r[j]
  {
    var collected := CollectedTags(store);
    AddAllNoRepeats([], GamesTags(store.games) + PartnersTags(store.partners));
    StringOrder();
    SortSorted(collected, StringLe);
    SortPermutes(collected, StringLe);
    PermutationNoRepeats(collected, UniqueTags(store));
  }

  /** A list with the same elements, counted with multiplicity, as one without repeats has none either. */
  lemma PermutationNoRepeats(s: seq<string>, r: seq<string>)
    requires NoRepeats(s)
    requires multiset(r) == multiset(s)
    ensures NoRepeats(r)
  {
    forall x | x in multiset(s) ensures multiset(s)[x] == 1 {
      NoRepeatsCount(s, x);
    }
    forall i, j | 0 <= i < j < |r| ensures r[i] != r[j] {
      TwiceCounted(r, i, j);
      assert r[i] in multiset(s);
    }
  }

  lemma TwiceCounted(r: seq<string>, i: nat, j: nat)
    requires i < j < |r|
    ensures r[i] == r[j] ==> multiset(r)[r[i]] >= 2
  {
    if r[i] == r[j] {
      assert r == r[..i] + [r[i]] + r[i + 1..j] + [r[j]] + r[j + 1..];
    }
  }

  lemma {:induction false} NoRepeatsCount(s: seq<string>, x: string)
    requires NoRepeats(s) && x in s
    ensures multiset(s)[x] == 1
  {
    var init := s[..|s| - 1];
    assert s == init + [s[|s| - 1]];
    if x == s[|s| - 1] {
      assert x !in init;
    } else {
      NoRepeatsCount(init, x);
    }
  }

  /** An empty store has no tags. */
  lemma EmptyStoreNoTags()
    ensures UniqueTags(Store([], [])) == []
  {
  }
}
