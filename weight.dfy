/**
 * Scoring of candidate links (`PydocIndexEntry.link_weight`): the sum of a
 * length term and a popularity bonus looked up by the first `\w+\.html`
 * page name found in the link. The length term, `1 / sqrt(len(link))` in
 * floating point, is a parameter `lengthWeight` of the model.
 */
module Weight {
  import opened Wrappers
  import opened Text

  /** Every character of `s[i..k]` is a word character. */
  predicate WordRun(s: string, i: nat, k: nat)
    requires i <= k <= |s|
  {
    forall j :: i <= j < k ==> IsWordChar(s[j])
  }

  /** Index just past the longest run of word characters starting at `i`. */
  function RunEnd(s: string, i: nat): (k: nat)
    requires i <= |s|
    ensures i <= k <= |s| && WordRun(s, i, k)
    ensures k == |s| || !IsWordChar(s[k])
    decreases |s| - i
  {
    if i < |s| && IsWordChar(s[i]) then RunEnd(s, i + 1) else i
  }

  /**
   * The pattern `\w+\.html` matches at position `i`. The greedy `\w+` takes
   * the whole run; giving characters back cannot help, because the `.` that
   * must follow is not a word character.
   */
  predicate MatchAt(s: string, i: nat) {
    i < |s| && IsWordChar(s[i]) &&
    var k := RunEnd(s, i);
    k + 5 <= |s| && s[k..k + 5] == ".html"
  }

  lemma {:induction false} RunEndCoversRun(s: string, i: nat, k: nat)
    requires i <= k <= |s| && WordRun(s, i, k)
    ensures k <= RunEnd(s, i)
    decreases |s| - i
  {
    if i < k {
      RunEndCoversRun(s, i + 1, k);
    }
  }

  /** A word run from `i` that stops at the end or before a non-word character is the one `RunEnd` finds. */
  lemma RunEndIs(s: string, i: nat, k: nat)
    requires i <= k <= |s| && WordRun(s, i, k) && (k == |s| || !IsWordChar(s[k]))
    ensures RunEnd(s, i) == k
  {
    RunEndCoversRun(s, i, k);
  }

  /** `MatchAt` is the regular expression's own condition: some non-empty word run from `i` is followed by `.html`. */
  lemma MatchAtIsRegexMatch(s: string, i: nat)
    ensures MatchAt(s, i) <==>
      exists k :: i < k && k + 5 <= |s| && WordRun(s, i, k) && s[k..k + 5] == ".html"
  {
    if exists k :: i < k && k + 5 <= |s| && WordRun(s, i, k) && s[k..k + 5] == ".html" {
      var k :| i < k && k + 5 <= |s| && WordRun(s, i, k) && s[k..k + 5] == ".html";
      RunEndCoversRun(s, i, k);
      assert s[k] == '.';
      assert RunEnd(s, i) == k;
    }
    if MatchAt(s, i) {
      var k := RunEnd(s, i);
      assert i < k && k + 5 <= |s| && WordRun(s, i, k) && s[k..k + 5] == ".html";
    }
  }

  /** Leftmost position at or after `i` where the pattern matches (`re.search`). */
  function FirstMatch(s: string, i: nat): (r: Option<nat>)
    requires i <= |s|
    ensures r.Some? ==> i <= r.value < |s| && MatchAt(s, r.value)
    decreases |s| - i
  {
    if i == |s| then None
    else if MatchAt(s, i) then Some(i)
    else FirstMatch(s, i + 1)
  }

  /** `FirstMatch` finds a match, and no match lies before it; it finds none only when there is none. */
  lemma {:induction false} FirstMatchSpec(s: string, i: nat)
    requires i <= |s|
    ensures FirstMatch(s, i).Some? ==> MatchAt(s, FirstMatch(s, i).value)
    ensures FirstMatch(s, i).Some? ==> forall j :: i <= j < FirstMatch(s, i).value ==> !MatchAt(s, j)
    ensures FirstMatch(s, i).None? ==> forall j :: i <= j < |s| ==> !MatchAt(s, j)
    decreases |s| - i
  {
    if i < |s| && !MatchAt(s, i) {
      FirstMatchSpec(s, i + 1);
    }
  }

  /** `re.search(r'(\w+)\.html', s).group(1)`: the page name without its extension. */
  function PageStem(s: string): (r: Option<string>)
    ensures r.Some? ==> 0 < |r.value| && |r.value| + 5 <= |s|
  {
    match FirstMatch(s, 0)
    case None => None
    case Some(i) => Some(s[i..RunEnd(s, i)])
  }

  /**
   * A page name is a non-empty run of word characters: the one the leftmost
   * match starts with, followed there by `.html`. There is none only when
   * nothing in `s` matches.
   */
  lemma PageStemSpec(s: string)
    ensures PageStem(s).Some? ==> |PageStem(s).value| > 0 && Free(PageStem(s).value, IsNonWordChar)
    ensures PageStem(s).Some? ==>
      exists i :: 0 <= i < |s| && MatchAt(s, i) && (forall j :: 0 <= j < i ==> !MatchAt(s, j)) &&
        i + |PageStem(s).value| + 5 <= |s| &&
        s[i..i + |PageStem(s).value|] == PageStem(s).value &&
        s[i + |PageStem(s).value|..i + |PageStem(s).value| + 5] == ".html"
    ensures PageStem(s).None? <==> forall j :: 0 <= j < |s| ==> !MatchAt(s, j)
  {
    FirstMatchSpec(s, 0);
    if PageStem(s).Some? {
      var i := FirstMatch(s, 0).value;
      var stem := PageStem(s).value;
      assert forall j :: 0 <= j < |stem| ==> stem[j] == s[i + j];
      assert s[i..i + |stem|] == stem && MatchAt(s, i);
    }
  }

  /** `re.search(r'\w+\.html', s).group(0)`, or `''` when there is no match. */
  function Page(s: string): (r: string)
    ensures r == "" <==> PageStem(s).None?
    ensures r != "" ==> |r| > 5 && r[|r| - 5..] == ".html"
  {
    match PageStem(s)
    case None => ""
    case Some(stem) => stem + ".html"
  }

  /** Page-popularity bonuses, from visitor counts and two manual promotions. */
  const Popularity: map<string, real> := map[
    "functions.html" := 1.0,
    "glossary.html" := 1.0,
    "stdtypes.html" := 0.9,
    "string.html" := 0.8,
    "re.html" := 0.7,
    "datetime.html" := 0.6,
    "builtins.html" := 0.5,
    "exceptions.html" := 0.1,
    "datamodel.html" := 0.8,
    "operator.html" := 0.8
  ]

  /** `weights.get(page, 0)`. */
  function VisitWeight(page: string): (w: real)
    ensures 0.0 <= w <= 1.0
    ensures w > 0.0 <==> page in Popularity
  {
    if page in Popularity then Popularity[page] else 0.0
  }

  /** `link_weight`: length term plus popularity bonus of the link's page. */
  function LinkWeight(lengthWeight: nat -> real, link: string): (r: real)
    ensures lengthWeight(|link|) <= r <= lengthWeight(|link|) + 1.0
  {
    lengthWeight(|link|) + VisitWeight(Page(link))
  }

  /** The length term never grows with the length (as `1 / sqrt(n)` does not). */
  ghost predicate Antitone(lengthWeight: nat -> real) {
    forall m: nat, n: nat :: m <= n ==> lengthWeight(n) <= lengthWeight(m)
  }

  /** Of two links to the same page, the shorter one weighs at least as much. */
  lemma ShorterLinkWeighsMore(lengthWeight: nat -> real, a: string, b: string)
    requires Antitone(lengthWeight)
    requires Page(a) == Page(b) && |a| <= |b|
    ensures LinkWeight(lengthWeight, a) >= LinkWeight(lengthWeight, b)
  {
  }

  /** A link to a popular page beats an equally long link to any other page. */
  lemma PopularPageWeighsMore(lengthWeight: nat -> real, a: string, b: string)
    requires Page(a) in Popularity && Page(b) !in Popularity && |a| == |b|
    ensures LinkWeight(lengthWeight, a) > LinkWeight(lengthWeight, b)
  {
  }

  lemma {:induction false} RunEndBeforeHash(u: string, t: string, i: nat)
    requires i <= |u| && t != [] && t[0] == '#'
    ensures RunEnd(u + t, i) == RunEnd(u, i)
    decreases |u| - i
  {
    if i < |u| && IsWordChar(u[i]) {
      RunEndBeforeHash(u, t, i + 1);
    } else {
      assert i == |u| ==> (u + t)[i] == '#';
    }
  }

  lemma MatchAtBeforeHash(u: string, t: string, j: nat)
    requires j < |u| && t != [] && t[0] == '#'
    ensures MatchAt(u + t, j) <==> MatchAt(u, j)
  {
    var s := u + t;
    RunEndBeforeHash(u, t, j);
    var k := RunEnd(u, j);
    if k + 5 <= |u| {
      assert s[k..k + 5] == u[k..k + 5];
    } else if k + 5 <= |s| {
      assert s[|u|] == '#';
      assert s[k..k + 5][|u| - k] == s[|u|];
    }
  }

  lemma {:induction false} FirstMatchBeforeHash(u: string, t: string, i: nat)
    requires i <= |u| && t != [] && t[0] == '#'
    requires FirstMatch(u, i).Some?
    ensures FirstMatch(u + t, i) == FirstMatch(u, i)
    decreases |u| - i
  {
    MatchAtBeforeHash(u, t, i);
    if !MatchAt(u, i) {
      FirstMatchBeforeHash(u, t, i + 1);
    }
  }

  /**
   * The page a link `url#anchor` is weighed by is the page named in its `url`
   * part whenever that part names one, whatever the anchor holds.
   */
  lemma {:induction false} PageOfLinkIsPageOfUrl(url: string, anchor: string)
    requires PageStem(url).Some?
    ensures PageStem(url + "#" + anchor) == PageStem(url)
    ensures Page(url + "#" + anchor) == PageStem(url).value + ".html"
  {
    var t := "#" + anchor;
    assert url + "#" + anchor == url + t;
    FirstMatchBeforeHash(url, t, 0);
    var i := FirstMatch(url, 0).value;
    RunEndBeforeHash(url, t, i);
    assert (url + t)[i..RunEnd(url, i)] == url[i..RunEnd(url, i)];
  }

  lemma GlossarySlices()
    ensures "glossary.html"[8..13] == ".html"
    ensures "glossary.html"[0..8] == "glossary"
  {
  }

  /** The glossary page is named `glossary`. */
  lemma GlossaryPage()
    ensures PageStem("glossary.html") == Some("glossary")
  {
    var s := "glossary.html";
    RunEndIs(s, 0, 8);
    GlossarySlices();
    assert MatchAt(s, 0);
    FirstMatchIs(s, 0);
  }

  /** In `library/sys.html` the directory name `library` is followed by `/`, not by `.html`. */
  lemma LibraryDoesNotMatch(j: nat)
    requires j < 8
    ensures !MatchAt("library/sys.html", j)
  {
    var s := "library/sys.html";
    if j < 7 {
      RunEndIs(s, j, 7);
      assert s[7..12][0] == '/';
    }
  }

  /** The leftmost match is at `m` when there is one at `m` and none before it. */
  lemma FirstMatchIs(s: string, m: nat)
    requires m < |s| && MatchAt(s, m)
    requires forall j :: 0 <= j < m ==> !MatchAt(s, j)
    ensures FirstMatch(s, 0) == Some(m)
  {
    FirstMatchSpec(s, 0);
  }

  lemma SysSlices()
    ensures "library/sys.html"[11..16] == ".html"
    ensures "library/sys.html"[8..11] == "sys"
  {
  }

  /** ... so the page is named `sys`. */
  lemma SysPage()
    ensures PageStem("library/sys.html") == Some("sys")
  {
    var s := "library/sys.html";
    forall j | 0 <= j < 8
      ensures !MatchAt(s, j)
    {
      LibraryDoesNotMatch(j);
    }
    RunEndIs(s, 8, 11);
    SysSlices();
    assert MatchAt(s, 8);
    FirstMatchIs(s, 8);
  }
}
