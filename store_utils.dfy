/**
 * The Steam helpers of src/helpers/storeUtils.ts: the app id read from a store
 * page URL by a regular expression, and the cover image URL built from an app id.
 */
module StoreUtils {
  import opened JsBuiltins

  /** The literal part of `/store.steampowered.com\/app\/(\d+)/`. */
  const StorePath: string := "store.steampowered.com/app/"

  /** The two unescaped dots of the pattern, which match any character but a line terminator. */
  predicate IsDotOffset(k: int) { k == 5 || k == 18 }

  /** Character `k` of the literal part of the pattern accepts `c`. */
  predicate PathCharMatches(k: nat, c: char, strict: bool)
    requires k < |StorePath|
  {
    if IsDotOffset(k) && !strict then !IsLineTerminator(c) else c == StorePath[k]
  }

  /**
   * The pattern matches at position `i` of `s`: the literal part, then at least one
   * digit. With `strict` the dots are read as literal dots.
   */
  predicate MatchesAt(s: string, i: nat, strict: bool) {
    && i + |StorePath| <= |s|
    && PathMatches(s[i..i + |StorePath|], strict)
    && DigitRun(s[i + |StorePath|..]) >= 1
  }

  /** `t` is accepted by the literal part of the pattern. */
  predicate PathMatches(t: string, strict: bool) {
    |t| == |StorePath| && forall k :: 0 <= k < |t| ==> PathCharMatches(k, t[k], strict)
  }

  /** The leftmost position at or after `from` where the pattern matches. */
  function FindMatch(s: string, from: nat, strict: bool): (r: Option<nat>)
    ensures r.Some? ==> from <= r.value && MatchesAt(s, r.value, strict)
    ensures r.Some? ==> forall j :: from <= j < r.value ==> !MatchesAt(s, j, strict)
    ensures r.None? ==> forall j :: from <= j ==> !MatchesAt(s, j, strict)
    decreases |s| - from
  {
    if from + |StorePath| > |s| then None
    else if MatchesAt(s, from, strict) then Some(from)
    else FindMatch(s, from + 1, strict)
  }

  /** The digits the capture group takes at a match: the longest run, since `\d+` is greedy. */
  function CapturedDigits(s: string, i: nat): (d: string)
    requires i + |StorePath| <= |s|
  {
    var rest := s[i + |StorePath|..];
    rest[..DigitRun(rest)]
  }

  /** The search shared by the source's pattern and its corrected form. */
  function MatchAppId(storeUrl: string, strict: bool): Option<string> {
    if |storeUrl| == 0 then None
    else
      match FindMatch(storeUrl, 0, strict)
      case None => None
      case Some(i) => Some(CapturedDigits(storeUrl, i))
  }

  /** `getSteamAppIdFromUrl(storeUrl)`, with the pattern as written. */
  function GetSteamAppIdFromUrl(storeUrl: string): Option<string> {
    MatchAppId(storeUrl, false)
  }

  /** The same search with the dots escaped, as the pattern evidently means them. */
  function GetSteamAppIdFromUrlStrict(storeUrl: string): Option<string> {
    MatchAppId(storeUrl, true)
  }

  /**
   * An id is found exactly when the pattern matches somewhere; it is then the
   * non-empty, maximal digit run after the leftmost match. An empty URL has none.
   */
  lemma AppIdIsLeftmostMatch(storeUrl: string, strict: bool)
    ensures |storeUrl| == 0 ==> MatchAppId(storeUrl, strict) == None
    ensures MatchAppId(storeUrl, strict).Some? <==> exists i: nat :: MatchesAt(storeUrl, i, strict)
    ensures MatchAppId(storeUrl, strict).Some? ==>
            exists i: nat :: MatchesAt(storeUrl, i, strict)
                        && (forall j :: 0 <= j < i ==> !MatchesAt(storeUrl, j, strict))
                        && MatchAppId(storeUrl, strict) == Some(CapturedDigits(storeUrl, i))
  {
    if |storeUrl| > 0 && FindMatch(storeUrl, 0, strict).Some? {
      var i := FindMatch(storeUrl, 0, strict).value;
      assert MatchesAt(storeUrl, i, strict);
    }
  }

  /** A found id is a non-empty string of digits, and the character after it is not a digit. */
  lemma AppIdIsDigits(storeUrl: string, strict: bool)
    requires MatchAppId(storeUrl, strict).Some?
    ensures var id := MatchAppId(storeUrl, strict).value;
            |id| >= 1 && AllDigits(id)
    ensures var i := FindMatch(storeUrl, 0, strict).value;
            var end := i + |StorePath| + |MatchAppId(storeUrl, strict).value|;
            end == |storeUrl| || !IsDigit(storeUrl[end])
  {
    var i := FindMatch(storeUrl, 0, strict).value;
    var rest := storeUrl[i + |StorePath|..];
    var n := DigitRun(rest);
    assert n == |rest| || !IsDigit(rest[n]);
  }

  /** A match of the corrected pattern is a match of the pattern as written. */
  lemma StrictMatchIsMatch(s: string, i: nat)
    requires MatchesAt(s, i, true)
    ensures MatchesAt(s, i, false)
  {
    var t := s[i..i + |StorePath|];
    forall k | 0 <= k < |t| ensures PathCharMatches(k, t[k], false) {
      assert PathCharMatches(k, t[k], true);
      assert !IsLineTerminator(StorePath[k]);
    }
  }

  /** With the corrected pattern, a found id follows the literal store path in the URL. */
  lemma StrictAppIdFollowsPath(storeUrl: string)
    requires GetSteamAppIdFromUrlStrict(storeUrl).Some?
    ensures var i := FindMatch(storeUrl, 0, true).value;
            storeUrl[i..i + |StorePath|] == StorePath
            && GetSteamAppIdFromUrlStrict(storeUrl).value <= storeUrl[i + |StorePath|..]
  {
    var i := FindMatch(storeUrl, 0, true).value;
    var t := storeUrl[i..i + |StorePath|];
    forall k | 0 <= k < |t| ensures t[k] == StorePath[k] {
      assert PathCharMatches(k, t[k], true);
    }
  }

  /** The digits right after a match are captured whole, up to the first non-digit. */
  lemma CapturedAfterPath(s: string, i: nat, id: string, rest: string)
    requires i + |StorePath| <= |s| && s[i + |StorePath|..] == id + rest
    requires |id| >= 1 && AllDigits(id)
    requires |rest| == 0 || !IsDigit(rest[0])
    ensures DigitRun(s[i + |StorePath|..]) == |id|
    ensures CapturedDigits(s, i) == id
  {
    var tail := id + rest;
    assert forall k :: 0 <= k < |id| ==> IsDigit(tail[k]);
    assert |id| < |tail| ==> tail[|id|] == rest[0];
    assert tail[..|id|] == id;
  }

  /** A store page URL, `https://` then the store path, the id and anything not starting with a digit, gives its id. */
  lemma StoreUrlGivesId(id: string, rest: string, strict: bool)
    requires |id| >= 1 && AllDigits(id)
    requires |rest| == 0 || !IsDigit(rest[0])
    ensures MatchAppId("https://" + StorePath + id + rest, strict) == Some(id)
  {
    var s := "https://" + StorePath + id + rest;
    assert s[..8] == "https://";
    assert s[8..8 + |StorePath|] == StorePath;
    assert s[8 + |StorePath|..] == id + rest;
    SchemeThenPath(s, id, rest, strict);
  }

  /** The same, for any `s` made of `https://`, the store path, the id and the rest. */
  lemma SchemeThenPath(s: string, id: string, rest: string, strict: bool)
    requires |s| >= 8 + |StorePath| && s[..8] == "https://" && s[8..8 + |StorePath|] == StorePath
    requires s[8 + |StorePath|..] == id + rest
    requires |id| >= 1 && AllDigits(id)
    requires |rest| == 0 || !IsDigit(rest[0])
    ensures MatchAppId(s, strict) == Some(id)
  {
    CapturedAfterPath(s, 8, id, rest);
    assert PathMatches(StorePath, strict);
    NoMatchInScheme(s, strict);
    FindMatchFirst(s, 0, 8, strict);
    FoundId(s, 8, id, strict);
  }

  /** The pattern cannot start inside a leading `https://`. */
  lemma NoMatchInScheme(s: string, strict: bool)
    requires |s| >= 8 && s[..8] == "https://"
    ensures forall j: nat :: j < 8 ==> !MatchesAt(s, j, strict)
  {
    forall j: nat | j < 8 && j + |StorePath| <= |s| ensures !MatchesAt(s, j, strict) {
      var t := s[j..j + |StorePath|];
      if j == 4 {
        assert t[1] == ':';
        assert !PathCharMatches(1, t[1], strict);
      } else {
        assert t[0] == s[j] == s[..8][j];
        assert !PathCharMatches(0, t[0], strict);
      }
    }
  }

  /** A first match at `i` whose capture is `id` gives `id`. */
  lemma FoundId(s: string, i: nat, id: string, strict: bool)
    requires FindMatch(s, 0, strict) == Some(i)
    requires i + |StorePath| <= |s| && CapturedDigits(s, i) == id
    ensures MatchAppId(s, strict) == Some(id)
  {
  }

  /** The search stops at the first match. */
  lemma FindMatchFirst(s: string, from: nat, i: nat, strict: bool)
    requires from <= i && MatchesAt(s, i, strict)
    requires forall j: nat :: from <= j < i ==> !MatchesAt(s, j, strict)
    ensures FindMatch(s, from, strict) == Some(i)
  {
  }

  /** With the pattern as written, any character may stand in for the two dots. */
  lemma DotMatchesAnyCharacter(c1: char, c2: char, id: string)
    requires !IsLineTerminator(c1) && !IsLineTerminator(c2)
    requires |id| >= 1 && AllDigits(id)
    ensures GetSteamAppIdFromUrl("store" + [c1] + "steampowered" + [c2] + "com/app/" + id) == Some(id)
  {
    var t := "store" + [c1] + "steampowered" + [c2] + "com/app/";
    var s := t + id;
    assert PathMatches(t, false) by {
      forall k | 0 <= k < |t| ensures PathCharMatches(k, t[k], false) {
        if !IsDotOffset(k) {
          assert t[k] == StorePath[k];
        }
      }
    }
    assert s[0..|StorePath|] == t;
    assert s[|StorePath|..] == id + [];
    CapturedAfterPath(s, 0, id, []);
  }

  /** With the dots escaped, a URL without a dot never gives an id. */
  lemma StrictNeedsDots(storeUrl: string)
    requires '.' !in storeUrl
    ensures GetSteamAppIdFromUrlStrict(storeUrl) == None
  {
    forall i: nat ensures !MatchesAt(storeUrl, i, true) {
      if i + |StorePath| <= |storeUrl| {
        var t := storeUrl[i..i + |StorePath|];
        assert t[5] == storeUrl[i + 5];
        assert !PathCharMatches(5, t[5], true);
      }
    }
    AppIdIsLeftmostMatch(storeUrl, true);
  }

  // ---------------------------------------------------------------------
  // The cover image.
  // ---------------------------------------------------------------------

  const CoverPrefix: string := "https://shared.akamai.steamstatic.com/store_item_assets/steam/apps/"
  const CoverSuffix: string := "/header.jpg"

  /** `getSteamCoverUrl(steamAppId)`: nothing for an absent or empty id. */
  function GetSteamCoverUrl(steamAppId: Option<string>): (r: Option<string>)
    ensures r.Some? <==> steamAppId.Some? && |steamAppId.value| > 0
    ensures r.Some? ==> |r.value| == |CoverPrefix| + |steamAppId.value| + |CoverSuffix|
  {
    if steamAppId.None? || |steamAppId.value| == 0 then None
    else Some(CoverPrefix + steamAppId.value + CoverSuffix)
  }

  /** The id a cover URL was built from: what lies between the prefix and the suffix. */
  function CoverAppId(url: string): Option<string> {
    if |url| >= |CoverPrefix| + |CoverSuffix| && CoverPrefix <= url && url[|url| - |CoverSuffix|..] == CoverSuffix
    then Some(url[|CoverPrefix|..|url| - |CoverSuffix|])
    else None
  }

  /** The cover URL holds its id: reading it back gives the id that built it. */
  lemma CoverUrlReadsBack(steamAppId: string)
    requires |steamAppId| > 0
    ensures CoverAppId(GetSteamCoverUrl(Some(steamAppId)).value) == Some(steamAppId)
  {
    var url := CoverPrefix + steamAppId + CoverSuffix;
    assert url[..|CoverPrefix|] == CoverPrefix;
    assert url[|url| - |CoverSuffix|..] == CoverSuffix;
    assert url[|CoverPrefix|..|url| - |CoverSuffix|] == steamAppId;
  }

  /** Distinct ids give distinct cover URLs. */
  lemma CoverUrlInjective(a: string, b: string)
    requires |a| > 0 && |b| > 0
    requires GetSteamCoverUrl(Some(a)) == GetSteamCoverUrl(Some(b))
    ensures a == b
  {
    CoverUrlReadsBack(a);
    CoverUrlReadsBack(b);
  }

  /** A store page URL leads straight to its cover image URL. */
  lemma StoreUrlToCover(id: string, rest: string)
    requires |id| >= 1 && AllDigits(id)
    requires |rest| == 0 || !IsDigit(rest[0])
    ensures GetSteamCoverUrl(GetSteamAppIdFromUrl("https://" + StorePath + id + rest))
            == Some(CoverPrefix + id + CoverSuffix)
  {
    StoreUrlGivesId(id, rest, false);
  }
}
