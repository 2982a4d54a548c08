/**
 * Key derivation for one parsed `(link, text)` pair of the index page (the
 * body of the loop in `PydocIndex.load_from`): which keys receive which
 * candidate link, in registration order.
 */
module Keys {
  import opened Wrappers
  import opened Text
  import opened Weight

  /** Candidate `link` to be registered under (the lower-cased form of) `key`. */
  datatype Registration = Registration(key: string, link: string)

  /** `url, anchor = link.split('#')` raises `ValueError` unless the split yields exactly two parts. */
  datatype LoadError = UnpackError(link: string, parts: nat)

  predicate HasOneHash(link: string) {
    Count(link, IsHash) == 1
  }

  /** `url, anchor = link.split('#')`. */
  function SplitLink(link: string): (r: Result<(string, string), LoadError>)
    ensures r.Ok? <==> HasOneHash(link)
    ensures r.Err? ==> r.error == UnpackError(link, Count(link, IsHash) + 1)
    ensures r.Ok? ==> link == r.value.0 + "#" + r.value.1
    ensures r.Ok? ==> Free(r.value.0, IsHash) && Free(r.value.1, IsHash)
  {
    var parts := Split(link, IsHash);
    if |parts| == 2 then
      SplitRoundTrip(link, IsHash, '#');
      SplitChunksFree(link, IsHash);
      Ok((parts[0], parts[1]))
    else
      Err(UnpackError(link, |parts|))
  }

  /** Splitting a link built from a `#`-free URL and a `#`-free anchor gives them back. */
  lemma SplitLinkOfParts(url: string, anchor: string)
    requires Free(url, IsHash) && Free(anchor, IsHash)
    ensures HasOneHash(url + "#" + anchor)
    ensures SplitLink(url + "#" + anchor) == Ok((url, anchor))
  {
    var parts := [url, anchor];
    assert Join(parts, '#') == url + "#" + anchor by {
      assert parts[1..] == [anchor];
    }
    assert AllFree(parts, IsHash);
    SplitJoin(parts, IsHash, '#');
  }

  /**
   * `['.'.join(chunks[-i-1:]) for i in range(len(chunks))]`: the last chunk,
   * the last two joined by `.`, and so on up to all of them.
   */
  function SuffixKeys(chunks: seq<string>): (keys: seq<string>)
    ensures |keys| == |chunks|
  {
    seq(|chunks|, i requires 0 <= i < |chunks| => Join(chunks[|chunks| - 1 - i..], '.'))
  }

  /** Key `i` splits back into exactly the last `i + 1` chunks. */
  lemma SuffixKeySplitsBack(chunks: seq<string>, i: nat)
    requires AllFree(chunks, IsNonWordChar) && i < |chunks|
    ensures Split(SuffixKeys(chunks)[i], IsNonWordChar) == chunks[|chunks| - 1 - i..]
  {
    var suffix := chunks[|chunks| - 1 - i..];
    assert forall j :: 0 <= j < |suffix| ==> suffix[j] == chunks[|chunks| - 1 - i + j];
    SplitJoin(suffix, IsNonWordChar, '.');
  }

  /** The suffix keys of an anchor are pairwise distinct, so each is registered once per anchor. */
  lemma SuffixKeysDistinct(chunks: seq<string>, i: nat, j: nat)
    requires AllFree(chunks, IsNonWordChar) && i < j < |chunks|
    ensures SuffixKeys(chunks)[i] != SuffixKeys(chunks)[j]
  {
    SuffixKeySplitsBack(chunks, i);
    SuffixKeySplitsBack(chunks, j);
    assert |chunks[|chunks| - 1 - i..]| != |chunks[|chunks| - 1 - j..]|;
  }

  /**
   * For an anchor, the first key is its last chunk and the last key is the
   * whole anchor with every non-word character turned into `.`.
   */
  lemma AnchorKeys(anchor: string)
    ensures var chunks := Split(anchor, IsNonWordChar);
            var keys := SuffixKeys(chunks);
            keys[0] == chunks[|chunks| - 1] &&
            keys[|keys| - 1] == Replace(anchor, IsNonWordChar, '.')
  {
    var chunks := Split(anchor, IsNonWordChar);
    var n := |chunks|;
    var keys := SuffixKeys(chunks);
    JoinSplit(anchor, IsNonWordChar, '.');
    assert keys[0] == Join(chunks[n - 1..], '.');
    assert chunks[n - 1..] == [chunks[n - 1]];
    assert keys[n - 1] == Join(chunks[0..], '.');
    assert chunks[0..] == chunks;
  }

  /** An anchor of two chunks is known under the second chunk and under both joined by `.`. */
  lemma TwoChunkKeys(first: string, second: string)
    ensures SuffixKeys([first, second]) == [second, first + "." + second]
  {
    var chunks := [first, second];
    var keys := SuffixKeys(chunks);
    assert chunks[1..] == [second];
    assert keys[0] == Join([second], '.');
    assert keys[1] == Join(chunks, '.');
  }

  /** `term-lambda` is known as `lambda` and as `term.lambda`. */
  lemma TermLambdaKeys()
    ensures SuffixKeys(Split("term-lambda", IsNonWordChar)) == ["lambda", "term.lambda"]
  {
    TermLambdaParts();
    SplitTwo("term", "lambda", IsNonWordChar, '-');
    TwoChunkKeys("term", "lambda");
  }

  lemma TermLambdaParts()
    ensures "term-lambda" == "term" + ['-'] + "lambda"
    ensures "term" + "." + "lambda" == "term.lambda"
    ensures Free("term", IsNonWordChar) && Free("lambda", IsNonWordChar)
  {
  }

  /**
   * The registrations made for one `(link, text)` pair, in order: `link`
   * under every suffix key of its anchor, then the page URL (without
   * fragment) under the page name when the URL names an `.html` page, then
   * `link` under the visible text.
   */
  function Derive(link: string, text: string): (r: Result<seq<Registration>, LoadError>)
    ensures r.Ok? <==> HasOneHash(link)
    ensures r.Err? ==> r.error == UnpackError(link, Count(link, IsHash) + 1)
    ensures r.Ok? ==> |r.value| >= 2
  {
    match SplitLink(link)
    case Err(e) => Err(e)
    case Ok((url, anchor)) =>
      var keys := SuffixKeys(Split(anchor, IsNonWordChar));
      var page := match PageStem(url)
                  case Some(stem) => [Registration(stem, url)]
                  case None => [];
      Ok(seq(|keys|, i requires 0 <= i < |keys| => Registration(keys[i], link))
         + page + [Registration(text, link)])
  }

  /**
   * The registrations for a link whose anchor has two chunks and whose URL
   * names a page, in order: the last chunk, both chunks joined by `.`, the
   * page name (with the URL), and the visible text.
   */
  lemma DeriveTwoChunks(url: string, anchor: string, first: string, second: string, stem: string, text: string)
    requires Free(url, IsHash) && Free(anchor, IsHash)
    requires Split(anchor, IsNonWordChar) == [first, second] && PageStem(url) == Some(stem)
    ensures var link := url + "#" + anchor;
            Derive(link, text) == Ok([Registration(second, link), Registration(first + "." + second, link),
                                      Registration(stem, url), Registration(text, link)])
  {
    var link := url + "#" + anchor;
    SplitLinkOfParts(url, anchor);
    TwoChunkKeys(first, second);
    var keys := SuffixKeys([first, second]);
    var suffix := seq(|keys|, i requires 0 <= i < |keys| => Registration(keys[i], link));
    assert suffix == [Registration(second, link), Registration(first + "." + second, link)];
    assert Derive(link, text) == Ok(suffix + [Registration(stem, url)] + [Registration(text, link)]);
    assert suffix + [Registration(stem, url)] + [Registration(text, link)]
        == [Registration(second, link), Registration(first + "." + second, link),
            Registration(stem, url), Registration(text, link)];
  }

  /**
   * Exactly what one pair registers: `link` under each suffix key of the
   * anchor and under the visible text, and the fragment-free `url` under
   * its page name when there is one — nothing else.
   */
  lemma DeriveRegistersExactly(link: string, text: string, key: string, target: string)
    requires HasOneHash(link)
    ensures var (url, anchor) := SplitLink(link).value;
            Registration(key, target) in Derive(link, text).value <==>
              (target == link && (key in SuffixKeys(Split(anchor, IsNonWordChar)) || key == text)) ||
              (target == url && PageStem(url) == Some(key))
  {
    var (url, anchor) := SplitLink(link).value;
    assert |url| < |link|;
    var keys := SuffixKeys(Split(anchor, IsNonWordChar));
    var regs := Derive(link, text).value;
    var suffix := seq(|keys|, i requires 0 <= i < |keys| => Registration(keys[i], link));
    if key in keys && target == link {
      var i :| 0 <= i < |keys| && keys[i] == key;
      assert suffix[i] == Registration(key, target);
    }
  }

  /** What each pair of the page derives, in page order. */
  function DeriveAll(pairs: seq<(string, string)>): (results: seq<Result<seq<Registration>, LoadError>>)
    ensures |results| == |pairs|
  {
    seq(|pairs|, i requires 0 <= i < |pairs| => Derive(pairs[i].0, pairs[i].1))
  }

  /**
   * The registrations of the results taken in order; the first result that
   * is an error aborts the whole with that error.
   */
  function Collect(results: seq<Result<seq<Registration>, LoadError>>): Result<seq<Registration>, LoadError>
    decreases |results|
  {
    if results == [] then Ok([])
    else
      var n := |results| - 1;
      match Collect(results[..n])
      case Err(e) => Err(e)
      case Ok(prev) =>
        match results[n]
        case Err(e) => Err(e)
        case Ok(regs) => Ok(prev + regs)
  }

  /** The registrations of a whole parsed page, pair by pair (the loop of `load_from`). */
  function AllRegistrations(pairs: seq<(string, string)>): (r: Result<seq<Registration>, LoadError>)
    ensures r.Ok? ==> |r.value| >= 2 * |pairs|
  {
    CollectAtLeastTwo(DeriveAll(pairs));
    Collect(DeriveAll(pairs))
  }

  /** When every successful result holds two registrations or more, so does every result collected. */
  lemma {:induction false} CollectAtLeastTwo(results: seq<Result<seq<Registration>, LoadError>>)
    requires forall i :: 0 <= i < |results| && results[i].Ok? ==> |results[i].value| >= 2
    ensures Collect(results).Ok? ==> |Collect(results).value| >= 2 * |results|
    decreases |results|
  {
    if results != [] {
      var n := |results| - 1;
      assert forall i :: 0 <= i < n ==> results[..n][i] == results[i];
      CollectAtLeastTwo(results[..n]);
    }
  }

  /** Collecting succeeds exactly when every result does. */
  lemma {:induction false} CollectOk(results: seq<Result<seq<Registration>, LoadError>>)
    ensures Collect(results).Ok? <==> forall i :: 0 <= i < |results| ==> results[i].Ok?
    decreases |results|
  {
    if results != [] {
      var n := |results| - 1;
      assert forall i :: 0 <= i < n ==> results[..n][i] == results[i];
      CollectOk(results[..n]);
    }
  }

  /** Collecting fails with the error of the first result that is an error. */
  lemma {:induction false} CollectFirstError(results: seq<Result<seq<Registration>, LoadError>>, i: nat)
    requires i < |results| && results[i].Err?
    requires forall j :: 0 <= j < i ==> results[j].Ok?
    ensures Collect(results) == Err(results[i].error)
    decreases |results|
  {
    var n := |results| - 1;
    var pre := results[..n];
    assert forall j :: 0 <= j < n ==> pre[j] == results[j];
    if i < n {
      CollectFirstError(pre, i);
    } else {
      CollectOk(pre);
    }
  }

  /** One more successful result appends its registrations. */
  lemma CollectExtends(results: seq<Result<seq<Registration>, LoadError>>, i: nat, done: seq<Registration>)
    requires i < |results| && Collect(results[..i]) == Ok(done) && results[i].Ok?
    ensures Collect(results[..i + 1]) == Ok(done + results[i].value)
  {
    assert results[..i + 1][..i] == results[..i];
  }

  /** After a successful prefix, a failing result makes the whole fail with its error. */
  lemma CollectStops(results: seq<Result<seq<Registration>, LoadError>>, i: nat)
    requires i < |results| && Collect(results[..i]).Ok? && results[i].Err?
    ensures Collect(results) == Err(results[i].error)
  {
    CollectOk(results[..i]);
    assert forall j :: 0 <= j < i ==> results[..i][j] == results[j];
    CollectFirstError(results, i);
  }

  /** Every registration of every result is among the collected ones. */
  lemma {:induction false} CollectIncludes(results: seq<Result<seq<Registration>, LoadError>>, p: nat, r: Registration)
    requires p < |results| && Collect(results).Ok?
    requires results[p].Ok? && r in results[p].value
    ensures r in Collect(results).value
    decreases |results|
  {
    var n := |results| - 1;
    var pre := results[..n];
    if p < n {
      assert pre[p] == results[p];
      CollectIncludes(pre, p, r);
    }
  }

  /** A page builds exactly when every link on it holds a single `#`. */
  lemma AllRegistrationsOk(pairs: seq<(string, string)>)
    ensures AllRegistrations(pairs).Ok? <==> forall i :: 0 <= i < |pairs| ==> HasOneHash(pairs[i].0)
  {
    var results := DeriveAll(pairs);
    assert forall i :: 0 <= i < |pairs| ==> (results[i].Ok? <==> HasOneHash(pairs[i].0));
    CollectOk(results);
  }

  /** The build fails with the error of the first link that does not hold a single `#`. */
  lemma AbortsAtFirstError(pairs: seq<(string, string)>, i: nat)
    requires i < |pairs| && !HasOneHash(pairs[i].0)
    requires forall j :: 0 <= j < i ==> HasOneHash(pairs[j].0)
    ensures AllRegistrations(pairs) == Err(UnpackError(pairs[i].0, Count(pairs[i].0, IsHash) + 1))
  {
    var results := DeriveAll(pairs);
    assert forall j :: 0 <= j < i ==> results[j].Ok?;
    CollectFirstError(results, i);
  }

  /** A page of two pairs that both split registers the first pair's keys, then the second's. */
  lemma TwoPairPage(first: (string, string), second: (string, string), r1: seq<Registration>, r2: seq<Registration>)
    requires Derive(first.0, first.1) == Ok(r1) && Derive(second.0, second.1) == Ok(r2)
    ensures AllRegistrations([first, second]) == Ok(r1 + r2)
  {
    var results := DeriveAll([first, second]);
    assert results[..0] == [];
    CollectExtends(results, 0, []);
    assert [] + r1 == r1;
    CollectExtends(results, 1, r1);
    assert results[..2] == results;
  }

  /** Every registration derived from a pair is among the registrations of a page that builds. */
  lemma DerivedIsRegistered(pairs: seq<(string, string)>, p: nat, r: Registration)
    requires p < |pairs| && AllRegistrations(pairs).Ok?
    requires HasOneHash(pairs[p].0) && r in Derive(pairs[p].0, pairs[p].1).value
    ensures r in AllRegistrations(pairs).value
  {
    CollectIncludes(DeriveAll(pairs), p, r);
  }

  /** Every collected registration comes from one of the successful results. */
  lemma {:induction false} CollectFrom(results: seq<Result<seq<Registration>, LoadError>>, r: Registration)
    requires Collect(results).Ok? && r in Collect(results).value
    ensures exists p :: 0 <= p < |results| && results[p].Ok? && r in results[p].value
    decreases |results|
  {
    var n := |results| - 1;
    var pre := results[..n];
    if r in Collect(pre).value {
      CollectFrom(pre, r);
      var p :| 0 <= p < |pre| && pre[p].Ok? && r in pre[p].value;
      assert results[p] == pre[p];
    } else {
      assert results[n].Ok? && r in results[n].value;
    }
  }

  /** Every registration of a page that builds was derived from one of its pairs. */
  lemma RegisteredIsDerived(pairs: seq<(string, string)>, r: Registration)
    requires AllRegistrations(pairs).Ok? && r in AllRegistrations(pairs).value
    ensures exists p :: 0 <= p < |pairs| && HasOneHash(pairs[p].0) && r in Derive(pairs[p].0, pairs[p].1).value
  {
    CollectFrom(DeriveAll(pairs), r);
  }
}
