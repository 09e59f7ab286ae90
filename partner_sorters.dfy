/**
 * `sortPartners` (src/helpers/partnerSorters.ts): a copy of the partner list sorted
 * by availability, busy-until time, game score, last stream and name.
 */
module PartnerSorters {
  import opened JsBuiltins
  import opened Types
  import opened Sorting

  /** `calculateGameScoreForPartner(gameTags, lovesTags, hatesTags)`, whose definition is not
      part of this model. */
  type ScoreFunction = (seq<string>, Option<seq<string>>, Option<seq<string>>) -> int

  /** Not busy: no busy-until time, or one that is not after `now`. */
  predicate IsAvailable(p: Partner, now: int) {
    p.busyUntil.None? || p.busyUntil.value <= now
  }

  /** The last-streamed time, with "never" read as 0. */
  function LastStreamed(p: Partner): int {
    if p.lastStreamedWith.Some? then p.lastStreamedWith.value else 0
  }

  /** Whether the game-score key is used: only for a non-empty list of game tags. */
  predicate UsesScore(gameTags: Option<seq<string>>) {
    gameTags.Some? && |gameTags.value| > 0
  }

  /** The comparator: negative when `a` goes first, positive when `b` does. */
  function ComparePartners(a: Partner, b: Partner, now: int, gameTags: Option<seq<string>>, score: ScoreFunction): int {
    var aAvailable := IsAvailable(a, now);
    var bAvailable := IsAvailable(b, now);
    if aAvailable && !bAvailable then -1
    else if !aAvailable && bAvailable then 1
    else
      var busyUntilComparison :=
        if !aAvailable && !bAvailable && a.busyUntil.Some? && b.busyUntil.Some?
        then a.busyUntil.value - b.busyUntil.value else 0;
      if busyUntilComparison != 0 then busyUntilComparison
      else
        var scoreComparison :=
          if UsesScore(gameTags)
          then score(gameTags.value, b.lovesTags, b.hatesTags) - score(gameTags.value, a.lovesTags, a.hatesTags)
          else 0;
        if scoreComparison != 0 then scoreComparison
        else if LastStreamed(a) != LastStreamed(b) then LastStreamed(a) - LastStreamed(b)
        else LocaleCompare(a.name, b.name)
  }

  /** "a may stay before b" under the comparator. */
  function PartnerLe(now: int, gameTags: Option<seq<string>>, score: ScoreFunction): (Partner, Partner) -> bool {
    (a: Partner, b: Partner) => ComparePartners(a, b, now, gameTags, score) <= 0
  }

  /** `sortPartners`: a sorted copy; the input list is a value and stays as it was. */
  function SortPartners(partners: seq<Partner>, gameTags: Option<seq<string>>, now: int, score: ScoreFunction): (r: seq<Partner>)
    ensures multiset(r) == multiset(partners)
  {
    SortPermutes(partners, PartnerLe(now, gameTags, score));
    InsertionSort(partners, PartnerLe(now, gameTags, score))
  }

  // ---------------------------------------------------------------------
  // The comparator is a lexicographic comparison of keys.
  // ---------------------------------------------------------------------

  /** What the comparator looks at, in order of priority. */
  datatype PartnerKey = PartnerKey(busy: int, busyUntil: int, negatedScore: int, lastStreamed: int, name: string)

  function KeyOf(p: Partner, now: int, gameTags: Option<seq<string>>, score: ScoreFunction): PartnerKey {
    PartnerKey(
      if IsAvailable(p, now) then 0 else 1,
      if IsAvailable(p, now) then 0 else p.busyUntil.value,
      if UsesScore(gameTags) then -score(gameTags.value, p.lovesTags, p.hatesTags) else 0,
      LastStreamed(p),
      p.name)
  }

  /** Lexicographic order on keys. */
  predicate KeyLe(x: PartnerKey, y: PartnerKey) {
    || x.busy < y.busy
    || (x.busy == y.busy && x.busyUntil < y.busyUntil)
    || (x.busy == y.busy && x.busyUntil == y.busyUntil && x.negatedScore < y.negatedScore)
    || (x.busy == y.busy && x.busyUntil == y.busyUntil && x.negatedScore == y.negatedScore && x.lastStreamed < y.lastStreamed)
    || (x.busy == y.busy && x.busyUntil == y.busyUntil && x.negatedScore == y.negatedScore && x.lastStreamed == y.lastStreamed
        && StringLe(x.name, y.name))
  }

  /** The comparator puts `a` first (or keeps the pair) exactly when `a`'s key is not greater. */
  lemma CompareIsKeyOrder(a: Partner, b: Partner, now: int, gameTags: Option<seq<string>>, score: ScoreFunction)
    ensures ComparePartners(a, b, now, gameTags, score) <= 0
            <==> KeyLe(KeyOf(a, now, gameTags, score), KeyOf(b, now, gameTags, score))
  {
    if a.name != b.name && StringLe(a.name, b.name) && StringLe(b.name, a.name) {
      StringLeAntisymmetric(a.name, b.name);
    }
    if a.name == b.name {
      StringLeReflexive(a.name);
    }
  }

  lemma {:induction false} StringLeReflexive(s: string)
    ensures StringLe(s, s)
  {
    StringLeTotal(s, s);
  }

  lemma KeyLeTotalPreorder()
    ensures TotalPreorder(KeyLe)
  {
    forall x: PartnerKey, y: PartnerKey ensures KeyLe(x, y) || KeyLe(y, x) {
      StringLeTotal(x.name, y.name);
    }
    forall x: PartnerKey, y: PartnerKey, z: PartnerKey | KeyLe(x, y) && KeyLe(y, z) ensures KeyLe(x, z) {
      if StringLe(x.name, y.name) && StringLe(y.name, z.name) {
        StringLeTransitive(x.name, y.name, z.name);
      }
    }
  }

  /** The comparator is consistent, whatever `now`, the game tags and the scores are. */
  lemma PartnerOrderIsTotalPreorder(now: int, gameTags: Option<seq<string>>, score: ScoreFunction)
    ensures TotalPreorder(PartnerLe(now, gameTags, score))
  {
    var le := PartnerLe(now, gameTags, score);
    KeyLeTotalPreorder();
    forall a: Partner, b: Partner ensures le(a, b) || le(b, a) {
      CompareIsKeyOrder(a, b, now, gameTags, score);
      CompareIsKeyOrder(b, a, now, gameTags, score);
    }
    forall a: Partner, b: Partner, c: Partner | le(a, b) && le(b, c) ensures le(a, c) {
      CompareIsKeyOrder(a, b, now, gameTags, score);
      CompareIsKeyOrder(b, c, now, gameTags, score);
      CompareIsKeyOrder(a, c, now, gameTags, score);
    }
  }

  // ---------------------------------------------------------------------
  // What the sorted list looks like.
  // ---------------------------------------------------------------------

  /** The output is in key order. */
  lemma SortedByKey(partners: seq<Partner>, gameTags: Option<seq<string>>, now: int, score: ScoreFunction)
    ensures var r := SortPartners(partners, gameTags, now, score);
            forall i, j :: 0 <= i < j < |r| ==> KeyLe(KeyOf(r[i], now, gameTags, score), KeyOf(r[j], now, gameTags, score))
  {
    var le := PartnerLe(now, gameTags, score);
    PartnerOrderIsTotalPreorder(now, gameTags, score);
    SortSorted(partners, le);
    var r := SortPartners(partners, gameTags, now, score);
    forall i, j | 0 <= i < j < |r| ensures KeyLe(KeyOf(r[i], now, gameTags, score), KeyOf(r[j], now, gameTags, score)) {
      assert le(r[i], r[j]);
      CompareIsKeyOrder(r[i], r[j], now, gameTags, score);
    }
  }

  /**
   * Available partners come before busy ones; busy partners are in order of the time
   * they are busy until; among partners tied so far, a higher game score comes first
   * when game tags are given; then the earliest last stream.
   */
  lemma SortPartnersOrder(partners: seq<Partner>, gameTags: Option<seq<string>>, now: int, score: ScoreFunction)
    ensures var r := SortPartners(partners, gameTags, now, score);
            forall i, j :: 0 <= i < j < |r| ==> IsAvailable(r[j], now) ==> IsAvailable(r[i], now)
    ensures var r := SortPartners(partners, gameTags, now, score);
            forall i, j :: 0 <= i < j < |r| && !IsAvailable(r[i], now) && !IsAvailable(r[j], now)
              ==> r[i].busyUntil.value <= r[j].busyUntil.value
    ensures var r := SortPartners(partners, gameTags, now, score);
            forall i, j :: 0 <= i < j < |r| && UsesScore(gameTags) && KeyOf(r[i], now, gameTags, score).busyUntil == KeyOf(r[j], now, gameTags, score).busyUntil
              && IsAvailable(r[i], now) == IsAvailable(r[j], now)
              ==> score(gameTags.value, r[i].lovesTags, r[i].hatesTags) >= score(gameTags.value, r[j].lovesTags, r[j].hatesTags)
    ensures var r := SortPartners(partners, gameTags, now, score);
            forall i, j :: 0 <= i < j < |r| && KeyOf(r[i], now, gameTags, score).busyUntil == KeyOf(r[j], now, gameTags, score).busyUntil
              && IsAvailable(r[i], now) == IsAvailable(r[j], now)
              && KeyOf(r[i], now, gameTags, score).negatedScore == KeyOf(r[j], now, gameTags, score).negatedScore
              ==> LastStreamed(r[i]) <= LastStreamed(r[j])
  {
    SortedByKey(partners, gameTags, now, score);
  }

  /** Sorting the sorted list again, with the same `now` and tags, changes nothing. */
  lemma SortPartnersIdempotent(partners: seq<Partner>, gameTags: Option<seq<string>>, now: int, score: ScoreFunction)
    ensures SortPartners(SortPartners(partners, gameTags, now, score), gameTags, now, score)
            == SortPartners(partners, gameTags, now, score)
  {
    PartnerOrderIsTotalPreorder(now, gameTags, score);
    SortIdempotent(partners, PartnerLe(now, gameTags, score));
  }

  // ---------------------------------------------------------------------
  // Keys the comparator skips.
  // ---------------------------------------------------------------------

  /** Between two available partners the busy-until times are not compared. */
  lemma AvailableIgnoresBusyUntil(a: Partner, b: Partner, now: int, gameTags: Option<seq<string>>, score: ScoreFunction)
    requires IsAvailable(a, now) && IsAvailable(b, now)
    ensures ComparePartners(a, b, now, gameTags, score)
            == ComparePartners(a.(busyUntil := None), b.(busyUntil := None), now, gameTags, score)
  {
  }

  /** Without game tags, or with an empty list of them, the scores play no part. */
  lemma NoTagsIgnoresScore(a: Partner, b: Partner, now: int, gameTags: Option<seq<string>>, score1: ScoreFunction, score2: ScoreFunction)
    requires !UsesScore(gameTags)
    ensures ComparePartners(a, b, now, gameTags, score1) == ComparePartners(a, b, now, gameTags, score2)
  {
  }

  /** A partner never streamed with sorts as one last streamed with at time 0. */
  lemma NeverStreamedIsZero(a: Partner, b: Partner, now: int, gameTags: Option<seq<string>>, score: ScoreFunction)
    ensures ComparePartners(a.(lastStreamedWith := None), b, now, gameTags, score)
            == ComparePartners(a.(lastStreamedWith := Some(0)), b, now, gameTags, score)
  {
  }

  /** Swapping the two partners flips the comparator's sign. */
  lemma CompareSwap(a: Partner, b: Partner, now: int, gameTags: Option<seq<string>>, score: ScoreFunction)
    ensures ComparePartners(b, a, now, gameTags, score) == -ComparePartners(a, b, now, gameTags, score)
  {
    LocaleCompareSwap(a.name, b.name);
  }
}
