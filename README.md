# pydocsearch in Dafny

A model of `pydocsearch.py`, which maps a keyword to a page of the Python
documentation. It has three parts:

- **Loading the index.** `PydocIndex.load_from` walks the `(link, text)`
  pairs of the documentation's `genindex-all.html`. Each pair files
  candidate links under several keywords.
- **Keeping the best link.** Every keyword's `PydocIndexEntry` remembers
  each candidate with its weight (`link_weight`). It keeps the heaviest as
  `best_link`, and on a tie the first one stays.
- **Searching.** `PydocIndex.search` answers a keyword from a small
  hard-coded table, or from the best link of its lower-cased form.

Modules, one per file:

- `wrappers.dfy`: `Option` and `Result`.
- `text.dfy` (`Text`): ASCII word characters, ASCII lower-casing, and
  splitting on single separator characters, with its round trips.
- `weight.dfy` (`Weight`): the leftmost `\w+\.html` match, the page
  popularity table and `link_weight`. The floating-point length term is the
  parameter `lengthWeight`.
- `ranking.dfy` (`Ranking`): the `PydocIndexEntry` class.
  - Its candidate map and best link are specified as functions of its
    registration history, `LinksOf` and `BestOf`.
  - `BestOf` is proved to pick the earliest of the heaviest candidates.
- `keys.dfy` (`Keys`): the registrations one `(link, text)` pair makes, in
  order, and those of a whole page. The first link that does not hold
  exactly one `#` aborts the build, as the tuple unpacking at line 98 does.
- `index.dfy` (`Index`): the `PydocIndex` class.
  - `GetOrCreateEntry`, `Add` and the loading loop update the index in
    place.
  - `LoadFrom` is proved to produce the per-keyword histories of the pure
    fold `HistoryOf`.
  - `Search` is specified against those histories.
- `doctests.dfy` (`Doctests`): the two examples in the documentation of
  `search`, proved on a page holding the two entries they rely on.

The hard-coded table of `search` is consulted with the keyword exactly as
given, before lower-casing (line 111). So `pip` gets the installer page,
while `PIP` is looked up in the index like any other keyword.

## Model

| member | source | states |
|---|---|---|
| Text.Lower | pydocsearch.py:68 | `keyword.lower()` keeps the length of the keyword. |
| Text.LowerIsLower | pydocsearch.py:68 | `keyword.lower()` keeps the length and yields a lower-case key. Lower-casing twice is the same as once, and a lower-case key is unchanged. |
| Text.Split | pydocsearch.py:98-99 | Splitting on a one-character separator gives one more chunk than the string has separators. |
| Text.SplitChunksFree | pydocsearch.py:98-99 | No chunk of a split holds a separator. |
| Text.JoinSplit | pydocsearch.py:99-101 | Joining the `\W` chunks of an anchor with `.` gives the anchor with every non-word character turned into `.`. |
| Text.Join | pydocsearch.py:100 | `sep.join(parts)` starts with the first part. |
| Text.SplitRoundTrip | pydocsearch.py:98 | Joining the parts of `link.split('#')` with `#` gives the link back. |
| Text.SplitJoin | pydocsearch.py:98-101 | Splitting separator-free chunks joined by a separator gives the chunks back, empty chunks included. |
| Text.SplitTwo | pydocsearch.py:99 | Two words free of separators, around one separator, split back into exactly those two words (as `re.split(r'\W', 'term-lambda')` gives `['term', 'lambda']`). |
| Weight.RunEnd | pydocsearch.py:47 | The greedy `\w+` run from a position is maximal: every character in it is a word character, and the next one is not. |
| Weight.MatchAtIsRegexMatch | pydocsearch.py:47 | `MatchAt` holds exactly when some non-empty word run from that position is followed by `.html`. |
| Weight.FirstMatch | pydocsearch.py:47 | A position that `re.search` reports lies in the string, and the pattern matches there. |
| Weight.FirstMatchSpec | pydocsearch.py:47 | `re.search` finds the leftmost match. None is reported only when there is no match at all. |
| Weight.PageStem | pydocsearch.py:103-105 | A page name is non-empty and leaves room in the URL for the `.html` after it. |
| Weight.PageStemSpec | pydocsearch.py:103-105 | The page name is a non-empty run of word characters. It is `group(1)` of the leftmost match: it starts at the first position where `\w+\.html` matches and is followed there by `.html`. There is none exactly when the URL holds no `\w+\.html`. |
| Weight.Page | pydocsearch.py:47-48 | `page` is `''` exactly when the link holds no `\w+\.html`, and otherwise ends in `.html`. |
| Weight.VisitWeight | pydocsearch.py:16-31 | The popularity bonus `weights.get(page, 0)` lies in [0, 1], and is positive exactly for the pages in the table. |
| Weight.LinkWeight | pydocsearch.py:38-51 | `link_weight` is the length term plus a popularity bonus between 0 and 1, as the docstring promises for each criterion. |
| Weight.ShorterLinkWeighsMore | pydocsearch.py:38-51 | If the length term never increases with length (as `1/sqrt` does not), the shorter of two links to the same page weighs at least as much. |
| Weight.PopularPageWeighsMore | pydocsearch.py:38-51 | Of two links of equal length, one to a page in the popularity table weighs strictly more than one to a page outside it. |
| Weight.PageOfLinkIsPageOfUrl | pydocsearch.py:47-48 | A link `url#anchor` is weighed by the page its `url` names, whatever the anchor holds. |
| Weight.GlossaryPage | pydocsearch.py:103-105 | `glossary.html` is named `glossary`. |
| Weight.SysPage | pydocsearch.py:103-105 | `library/sys.html` is named `sys`, not `library`. |
| Ranking.LinksOfSpec | pydocsearch.py:55 | After any sequence of `register` calls, the keys of `links` are exactly the registered links, each mapped to its own weight. |
| Ranking.BestOf | pydocsearch.py:56-59 | `best_link` is None exactly while nothing has been registered. |
| Ranking.BestOfSpec | pydocsearch.py:56-59 | After registrations, `best_link` is a registered link and no registered link weighs more. |
| Ranking.BestIsFirstMaximal | pydocsearch.py:56-59 | `best_link` is the earliest registered link of maximal weight, since the strict `>` keeps the first of equals. |
| Ranking.TieKeepsFirst | pydocsearch.py:58 | Registering a link whose weight equals the best one's leaves `best_link` unchanged. |
| Ranking.ReRegisterIsIdempotent | pydocsearch.py:53-59 | Registering a link again leaves both `links` and `best_link` unchanged. |
| Ranking.BestLinkIsHeaviest | pydocsearch.py:53-59 | After any non-empty sequence of registrations, `best_link` is a key of `links` and `links[best_link] >= links[l]` for every key `l`. |
| Ranking.OnlyCandidateIsBest | pydocsearch.py:56-59 | A keyword whose every registration was the same link has that link as its best. |
| Ranking.IndexEntry.constructor | pydocsearch.py:33-36 | A new entry has empty `links`, no best link and an empty history. |
| Ranking.IndexEntry.Register | pydocsearch.py:53-59 | `register(l)` sets `links[l]` to l's weight, leaves every other key of `links` as it was, and replaces the best link only when there is none or l weighs strictly more. The entry stays consistent with its history. |
| Keys.SplitLink | pydocsearch.py:98 | `url, anchor = link.split('#')` succeeds exactly when the link holds one `#`. It then gives back `link == url + "#" + anchor` with neither part holding a `#`. Otherwise it fails with the number of parts. |
| Keys.SplitLinkOfParts | pydocsearch.py:98 | Splitting `url + "#" + anchor`, with neither part holding a `#`, gives back `(url, anchor)`. |
| Keys.SuffixKeys | pydocsearch.py:100-101 | There is one suffix key per anchor chunk. |
| Keys.SuffixKeySplitsBack | pydocsearch.py:100-101 | Suffix key `i` is exactly the last `i + 1` chunks joined by `.`: splitting it again gives them back. |
| Keys.SuffixKeysDistinct | pydocsearch.py:100-102 | The suffix keys of one anchor are pairwise distinct. |
| Keys.AnchorKeys | pydocsearch.py:99-102 | The first key is the last chunk of the anchor. The last key is the whole anchor with each non-word character replaced by `.`. |
| Keys.TwoChunkKeys | pydocsearch.py:100-101 | An anchor of two chunks is known under the second chunk and under both joined by `.`. |
| Keys.TermLambdaKeys | pydocsearch.py:86-90 | `term-lambda` is known under `lambda` and `term.lambda`. |
| Keys.Derive | pydocsearch.py:97-106 | One pair registers successfully exactly when its link holds one `#`, and then makes two registrations or more (its last anchor chunk and its text). Otherwise it fails with the unpacking error of that link. |
| Keys.DeriveTwoChunks | pydocsearch.py:98-106 | For a two-chunk anchor and a URL naming a page, these are the registrations, in order: the last chunk, the dotted anchor, the page name (with the URL), then the visible text. |
| Keys.DeriveRegistersExactly | pydocsearch.py:98-106 | A pair registers `(key, target)` exactly when one of two cases holds. Either the target is the link and the key is a suffix key or the text. Or the target is the fragment-free URL and the key is its page name. |
| Keys.AllRegistrations | pydocsearch.py:97-106 | A page that builds makes at least two registrations per pair. |
| Keys.CollectAtLeastTwo | pydocsearch.py:97-106 | When every pair that succeeds makes two registrations or more, the collected page has at least two per pair. |
| Keys.CollectOk | pydocsearch.py:97-106 | A sequence of per-pair results builds exactly when every pair succeeded. |
| Keys.CollectFirstError | pydocsearch.py:97-98 | A failing build reports the first failing pair's error. |
| Keys.CollectIncludes | pydocsearch.py:97-106 | Every registration of every pair is among those of a page that builds. |
| Keys.CollectFrom | pydocsearch.py:97-106 | Conversely, every registration of a page that builds comes from one of the successful per-pair results. |
| Keys.AllRegistrationsOk | pydocsearch.py:97-98 | A page builds exactly when every link on it holds a single `#`. |
| Keys.AbortsAtFirstError | pydocsearch.py:97-98 | A page fails with the unpacking error of its first link that does not hold a single `#`. |
| Keys.DerivedIsRegistered | pydocsearch.py:97-106 | What any pair of a page that builds derives is registered by the page. |
| Keys.RegisteredIsDerived | pydocsearch.py:97-106 | Conversely, every registration of a page that builds was derived from one of its pairs, and that pair's link holds one `#`. |
| Index.CandidatesForMembers | pydocsearch.py:102-106 | A link is a candidate of keyword `k` exactly when some registration filed it under a key that lower-cases to `k`. |
| Index.CandidatesForNone | pydocsearch.py:102-106 | A keyword that no registration lower-cases to has no candidates. |
| Index.HistoryOfSpec | pydocsearch.py:97-106 | The index built from registrations holds exactly the keywords that received a candidate. Each keyword has its candidates in registration order. |
| Index.RegisteredIsCandidate | pydocsearch.py:67-71 | Every registration leaves its link among the candidates of its lower-cased key. |
| Index.HistoryOfPopulated | pydocsearch.py:97-106 | Every keyword of a built index has at least one candidate, hence a best link. |
| Index.PydocIndex.constructor | pydocsearch.py:62-65 | A new index is empty, and every entry weighs links by `link_weight`. |
| Index.PydocIndex.GetOrCreateEntry | pydocsearch.py:67-71 | It returns the entry at `lower(keyword)`. A fresh empty entry is added only when that key was absent, and no other key changes. |
| Index.PydocIndex.RegisterAt | pydocsearch.py:102 | Registering with the entry at `k` appends the link to `k`'s history and leaves every other entry alone. |
| Index.PydocIndex.Add | pydocsearch.py:102-106 | `get_or_create_entry(key).register(link)` extends the history of `lower(key)` by `link` and keeps the index consistent. |
| Index.PydocIndex.AddAll | pydocsearch.py:100-106 | Performing one pair's registrations in order extends the histories as the pure fold does. |
| Index.PydocIndex.LoadPair | pydocsearch.py:98-106 | One pass of the loop returns what the pair derives. When the link splits, the histories grow by exactly those registrations, in order. |
| Index.PydocIndex.LoadPairs | pydocsearch.py:97-106 | The loop over the pairs aborts with the first unpacking error. Otherwise the index holds exactly the histories of the page's registrations. |
| Index.PydocIndex.LoadFrom | pydocsearch.py:75-107 | `load_from(version)` on the scanned pairs either fails with the page's first error, or gives a fresh index for `https://docs.python.org/<version>/`. The version defaults to `3.5`. That index is consistent, every keyword has a best link, and it holds exactly the page's histories. |
| Index.PydocIndex.Search | pydocsearch.py:109-116 | `pip` exactly as given gets the installer page. Any other keyword gets `doc_url` plus the best of the candidates of its lower-cased form if it has any, and None otherwise. |
| Index.PairIsIndexed | pydocsearch.py:97-106 | In a built index, the link of every pair is a candidate of each suffix key of its anchor and of its visible text. Its fragment-free URL is a candidate of its page name. |
| Index.UnderivedIsAbsent | pydocsearch.py:97-106 | A keyword that no pair of the page registers, in any letter case, is not a key of the built index. |
| Index.SoleTargetIsBest | pydocsearch.py:53-71 | A keyword whose registrations, across all case variants, all carry the same link gets that link as its best, whatever the weights. |
| Index.SearchIgnoresCase | pydocsearch.py:114 | Keywords that differ only in letter case find the same link, unless one is hard-coded. |
| Index.UnderivedIsNotFound | pydocsearch.py:109-116 | On an index built from a page, `search` returns None for a keyword that is not hard-coded and that no pair of the page derives (the `KeyError` branch). |
| Index.OverrideIsCaseSensitive | pydocsearch.py:110-114 | `pip` always gets the installer page. `PIP` gets None when the index has no `pip`, and the index's best link for `pip` otherwise. |
| Index.SearchReturnsFirstHeaviest | pydocsearch.py:109-116 | A known keyword that is not hard-coded finds the earliest registered of its heaviest candidates. |
| Doctests.LambdaDerives | pydocsearch.py:97-106 | The entry `glossary.html#term-lambda` / `lambda` registers under `lambda`, `term.lambda`, `glossary` (the URL) and `lambda`. |
| Doctests.ExitDerives | pydocsearch.py:97-106 | The entry `library/sys.html#sys.exit` / `exit() (in module sys)` registers under `exit`, `sys.exit`, `sys` (the URL) and its text. |
| Doctests.DoctestRegistrations | pydocsearch.py:97-106 | A page of those two entries builds their registrations in page order. |
| Doctests.DoctestSearches | pydocsearch.py:123-126 | On that page, for the default version and any length term: `search('lambda')` is `https://docs.python.org/3.5/glossary.html#term-lambda`, as is `search('Lambda')`. `search('exit')` is `https://docs.python.org/3.5/library/sys.html#sys.exit`. |

## Left out

- Fetching `genindex-all.html` over HTTP (line 95) is network I/O. The model starts from the scanned `(link, text)` pairs.
- The scan `re.findall('href="(.+?#.+?)">([^<]+)</a>', ...)` over the raw HTML (line 96) is left out. Its result is the input sequence of pairs.
- The length term `1 / math.sqrt(len(doc_link))` (line 50) is floating point. It is the parameter `lengthWeight: nat -> real`. Facts about the size of weights assume only what `Antitone` states.
- Weights are exact `real` numbers. Python adds the length term and the bonus as binary floats (line 51), stores the table values `.9`, `.8`, ... as floats, and compares weights with a strict `>` (line 58). Where rounding would turn an exact tie into a strict win, or the reverse, the model may keep a different best link.
- The module-level `search(keyword, version='3.5')` (lines 119-128) is `LoadFrom` followed by `Search`. It is played only in `Doctests.DoctestSearches`, on a two-entry page and the default version.
- The `lru_cache` memoisation of `load_from` (lines 73-74) does not change results and is not modelled.
- `main`, argument parsing, the dump options and the doctest runner (lines 131-173) are command-line I/O.
- The doctests (lines 123-126) run against the live documentation page. `Doctests.DoctestSearches` plays them on a two-entry page instead.
- setup.py is packaging metadata and is not part of this model.
- `\w` and `str.lower()` are modelled on ASCII only. Python's Unicode word characters and case mappings are not modelled.
- Index.PydocIndex.Search: requires every entry to have a best link. `doc_url + None` would raise `TypeError`, and `LoadFrom` proves the condition holds for every index it builds.
- Keys.SplitLink: the `ValueError` raised by the tuple unpacking is modelled as an `UnpackError` result carrying the link and its number of parts. Python's exception message is not modelled.
- The insertion order of Python dictionaries (visible only in the dump options) is not modelled. `links` and `index` are maps.
