/**
 * The keyword index (`PydocIndex`): a map from lower-cased keyword to its
 * entry, filled by a loop over the parsed `(link, text)` pairs of the
 * documentation's index page, and queried by `search`.
 */
module Index {
  import opened Wrappers
  import opened Text
  import opened Weight
  import opened Ranking
  import opened Keys

  /** Links registered under the lower-case keyword `k`, in order. */
  function CandidatesFor(regs: seq<Registration>, k: string): seq<string>
    decreases |regs|
  {
    if regs == [] then []
    else
      var last := regs[|regs| - 1];
      CandidatesFor(regs[..|regs| - 1], k) + (if Lower(last.key) == k then [last.link] else [])
  }

  /** A link is a candidate of `k` exactly when some registration files it under a key that lower-cases to `k`. */
  lemma {:induction false} CandidatesForMembers(regs: seq<Registration>, k: string, l: string)
    ensures l in CandidatesFor(regs, k) <==> exists r :: r in regs && Lower(r.key) == k && r.link == l
    decreases |regs|
  {
    if regs != [] {
      var n := |regs| - 1;
      CandidatesForMembers(regs[..n], k, l);
      assert regs == regs[..n] + [regs[n]];
      if exists r :: r in regs && Lower(r.key) == k && r.link == l {
        var r :| r in regs && Lower(r.key) == k && r.link == l;
        if r != regs[n] {
          assert r in regs[..n];
        }
      }
    }
  }

  /** A keyword that no registration lower-cases to has no candidates. */
  lemma {:induction false} CandidatesForNone(regs: seq<Registration>, k: string)
    requires forall r :: r in regs ==> Lower(r.key) != k
    ensures CandidatesFor(regs, k) == []
    decreases |regs|
  {
    if regs != [] {
      var n := |regs| - 1;
      assert forall r :: r in regs[..n] ==> r in regs;
      assert regs[n] in regs;
      CandidatesForNone(regs[..n], k);
    }
  }

  /** `get_or_create_entry(k).register(link)` on histories. */
  function Record(h: map<string, seq<string>>, k: string, link: string): map<string, seq<string>> {
    h[k := (if k in h then h[k] else []) + [link]]
  }

  /** One more registration is one more `Record` on the histories. */
  lemma RecordNext(cur: seq<Registration>, r: Registration)
    ensures HistoryOf(cur + [r]) == Record(HistoryOf(cur), Lower(r.key), r.link)
  {
    assert (cur + [r])[..|cur|] == cur;
  }

  /** Taking one more registration of `regs` after `done`. */
  lemma PrefixNext(done: seq<Registration>, regs: seq<Registration>, j: nat)
    requires j < |regs|
    ensures done + regs[..j + 1] == (done + regs[..j]) + [regs[j]]
  {
    assert regs[..j + 1] == regs[..j] + [regs[j]];
  }

  /** Registering after creating a missing history records the link as its first entry. */
  lemma RecordAfterCreated(before: map<string, seq<string>>, created: map<string, seq<string>>, k: string, link: string)
    requires created == if k in before then before else before[k := []]
    ensures k in created && created[k := created[k] + [link]] == Record(before, k, link)
  {
  }

  /** Registration histories of all keywords after performing `regs` in order on an empty index. */
  function HistoryOf(regs: seq<Registration>): (h: map<string, seq<string>>)
    decreases |regs|
  {
    if regs == [] then map[]
    else
      var n := |regs| - 1;
      Record(HistoryOf(regs[..n]), Lower(regs[n].key), regs[n].link)
  }

  /**
   * The index built by a sequence of registrations holds exactly the
   * keywords that received a candidate, each with its candidates in
   * registration order.
   */
  lemma {:induction false} HistoryOfSpec(regs: seq<Registration>, k: string)
    ensures k in HistoryOf(regs) <==> CandidatesFor(regs, k) != []
    ensures k in HistoryOf(regs) ==> HistoryOf(regs)[k] == CandidatesFor(regs, k)
    decreases |regs|
  {
    if regs != [] {
      HistoryOfSpec(regs[..|regs| - 1], k);
    }
  }

  /** Every registration leaves its link among the candidates of its lower-cased key. */
  lemma RegisteredIsCandidate(regs: seq<Registration>, r: Registration)
    requires r in regs
    ensures Lower(r.key) in HistoryOf(regs) && r.link in HistoryOf(regs)[Lower(r.key)]
  {
    CandidatesForMembers(regs, Lower(r.key), r.link);
    HistoryOfSpec(regs, Lower(r.key));
  }

  /** `{'pip': 'installing/index.html'}`: keywords answered without the index. */
  const Overrides: map<string, string> := map["pip" := "installing/index.html"]

  class PydocIndex {
    const docUrl: string
    /** The `link_weight` every entry of this index scores with. */
    const weight: string -> real
    var index: map<string, IndexEntry>
    /** Each keyword's registration history. */
    ghost var histories: map<string, seq<string>>

    /** Each entry sits under its own lower-case keyword, is consistent, and has the recorded history. */
    ghost predicate Valid()
      reads this, index.Values
    {
      histories.Keys == index.Keys &&
      forall k :: k in index ==>
        index[k].keyword == k && IsLower(k) && index[k].weight == weight && index[k].Valid() &&
        index[k].history == histories[k]
    }

    /** Every keyword has had a link registered, so its entry has a best link. */
    ghost predicate Populated()
      reads this
    {
      forall k :: k in histories ==> histories[k] != []
    }

    constructor (docUrl: string, lengthWeight: nat -> real)
      ensures Valid() && index == map[] && histories == map[]
      ensures this.docUrl == docUrl
      ensures forall link :: weight(link) == LinkWeight(lengthWeight, link)
    {
      this.docUrl := docUrl;
      this.weight := link => LinkWeight(lengthWeight, link);
      index := map[];
      histories := map[];
    }

    /**
     * `get_or_create_entry`: the entry of the lower-cased keyword, created
     * empty when the keyword is new; no other keyword is touched.
     */
    method GetOrCreateEntry(keyword: string) returns (entry: IndexEntry)
      requires Valid()
      modifies this
      ensures Valid()
      ensures Lower(keyword) in index && entry == index[Lower(keyword)]
      ensures Lower(keyword) in old(index) ==> index == old(index)
      ensures Lower(keyword) !in old(index) ==>
        fresh(entry) && index == old(index)[Lower(keyword) := entry] &&
        entry.links == map[] && entry.bestLink == None && entry.history == []
      ensures histories ==
        if Lower(keyword) in old(index) then old(histories)
        else old(histories)[Lower(keyword) := []]
    {
      var k := Lower(keyword);
      LowerIsLower(keyword);
      if k !in index {
        var e := new IndexEntry(k, weight);
        index := index[k := e];
        histories := histories[k := []];
      }
      entry := index[k];
    }

    /** `register(link)` on the entry already stored under `k`; every other entry is left alone. */
    method RegisterAt(k: string, link: string)
      requires Valid() && k in index
      modifies index[k], this`histories
      ensures Valid() && index == old(index)
      ensures histories == old(histories)[k := old(histories)[k] + [link]]
    {
      var entry := index[k];
      entry.Register(link);
      histories := histories[k := histories[k] + [link]];
      forall k' | k' in index && k' != k
        ensures index[k'].Valid() && index[k'].history == histories[k']
      {
        assert index[k'].keyword == k';
      }
    }

    /** `get_or_create_entry(key).register(link)`, as done at each registration site of `load_from`. */
    method Add(key: string, link: string)
      requires Valid()
      modifies this, index.Values
      ensures Valid()
      ensures fresh(index.Values - old(index.Values))
      ensures histories == Record(old(histories), Lower(key), link)
    {
      var k := Lower(key);
      ghost var before := histories;
      var entry := GetOrCreateEntry(key);
      ghost var created := histories;
      RegisterAt(k, link);
      RecordAfterCreated(before, created, k, link);
    }

    /** The registrations of one pair, performed in order. */
    method AddAll(ghost done: seq<Registration>, regs: seq<Registration>)
      requires Valid() && histories == HistoryOf(done)
      modifies this, index.Values
      ensures Valid()
      ensures fresh(index.Values - old(index.Values))
      ensures histories == HistoryOf(done + regs)
    {
      var j := 0;
      ghost var cur := done;
      assert regs[..0] == [];
      while j < |regs|
        invariant 0 <= j <= |regs|
        invariant fresh(index.Values - old(index.Values))
        invariant Valid()
        invariant cur == done + regs[..j]
        invariant histories == HistoryOf(cur)
      {
        Add(regs[j].key, regs[j].link);
        RecordNext(cur, regs[j]);
        PrefixNext(done, regs, j);
        cur := cur + [regs[j]];
        j := j + 1;
      }
      assert regs[..j] == regs;
    }

    /**
     * One pass of the loop of `load_from`: split the link, then register the
     * pair's keys in order. A link that does not split in two fails before
     * anything is registered.
     */
    method LoadPair(ghost done: seq<Registration>, link: string, text: string)
      returns (r: Result<seq<Registration>, LoadError>)
      requires Valid() && histories == HistoryOf(done)
      modifies this, index.Values
      ensures Valid()
      ensures fresh(index.Values - old(index.Values))
      ensures r == Derive(link, text)
      ensures r.Ok? ==> histories == HistoryOf(done + r.value)
    {
      r := Derive(link, text);
      if r.Ok? {
        AddAll(done, r.value);
      }
    }

    /**
     * The loop of `load_from` over the `(link, text)` pairs scanned from the
     * index page: every pair registers its derived keys in order, and the
     * first link that does not split in two aborts the build.
     */
    method LoadPairs(pairs: seq<(string, string)>) returns (r: Result<(), LoadError>)
      requires Valid() && histories == map[]
      modifies this, index.Values
      ensures Valid()
      ensures fresh(index.Values - old(index.Values))
      ensures r.Err? ==> AllRegistrations(pairs) == Err(r.error)
      ensures r.Ok? ==> AllRegistrations(pairs).Ok? && histories == HistoryOf(AllRegistrations(pairs).value)
    {
      ghost var results := DeriveAll(pairs);
      ghost var done: seq<Registration> := [];
      var i := 0;
      while i < |pairs|
        invariant 0 <= i <= |pairs|
        invariant fresh(index.Values - old(index.Values))
        invariant Valid()
        invariant Collect(results[..i]) == Ok(done)
        invariant histories == HistoryOf(done)
      {
        var derived := LoadPair(done, pairs[i].0, pairs[i].1);
        assert derived == results[i];
        if derived.Err? {
          CollectStops(results, i);
          return Err(derived.error);
        }
        CollectExtends(results, i, done);
        done := done + derived.value;
        i := i + 1;
      }
      assert results[..i] == results;
      return Ok(());
    }

    /**
     * `load_from(version)` on the `(link, text)` pairs already scanned from
     * the index page of that version's documentation (`3.5` unless given).
     */
    static method LoadFrom(lengthWeight: nat -> real, pairs: seq<(string, string)>, version: string := "3.5")
      returns (r: Result<PydocIndex, LoadError>)
      ensures r.Err? ==> AllRegistrations(pairs) == Err(r.error)
      ensures r.Ok? ==>
        AllRegistrations(pairs).Ok? &&
        fresh(r.value) && r.value.Valid() && r.value.Populated() &&
        r.value.docUrl == "https://docs.python.org/" + version + "/" &&
        r.value.histories == HistoryOf(AllRegistrations(pairs).value)
      ensures r.Ok? ==> forall link :: r.value.weight(link) == LinkWeight(lengthWeight, link)
    {
      var idx := new PydocIndex("https://docs.python.org/" + version + "/", lengthWeight);
      var loaded := idx.LoadPairs(pairs);
      if loaded.Err? {
        return Err(loaded.error);
      }
      HistoryOfPopulated(AllRegistrations(pairs).value);
      return Ok(idx);
    }

    /**
     * `search`: the hard-coded answer for the keyword exactly as given,
     * otherwise the best link of the lower-cased keyword, otherwise nothing.
     */
    function Search(keyword: string): (r: Option<string>)
      requires Valid() && Populated()
      reads this, index.Values
      ensures keyword in Overrides ==> r == Some(docUrl + Overrides[keyword])
      ensures keyword !in Overrides ==> (r.Some? <==> Lower(keyword) in histories)
      ensures keyword !in Overrides && r.Some? ==>
        r == Some(docUrl + BestOf(weight, histories[Lower(keyword)]).value)
    {
      if keyword in Overrides then Some(docUrl + Overrides[keyword])
      else
        var k := Lower(keyword);
        if k in index then Some(docUrl + index[k].bestLink.value) else None
    }
  }

  /** Every keyword of a built index has at least one candidate, hence a best link. */
  lemma HistoryOfPopulated(regs: seq<Registration>)
    ensures forall k :: k in HistoryOf(regs) ==> HistoryOf(regs)[k] != []
  {
    forall k | k in HistoryOf(regs) {
      HistoryOfSpec(regs, k);
    }
  }

  /**
   * What a built index holds for one pair of the page: its link among the
   * candidates of every suffix key of its anchor and of its visible text,
   * and its fragment-free URL among the candidates of its page name.
   */
  lemma PairIsIndexed(pairs: seq<(string, string)>, p: nat, key: string)
    requires p < |pairs| && AllRegistrations(pairs).Ok?
    ensures HasOneHash(pairs[p].0)
    ensures var (link, text) := pairs[p];
            var (url, anchor) := SplitLink(link).value;
            var h := HistoryOf(AllRegistrations(pairs).value);
            (key in SuffixKeys(Split(anchor, IsNonWordChar)) || key == text ==>
               Lower(key) in h && link in h[Lower(key)]) &&
            (PageStem(url) == Some(key) ==> Lower(key) in h && url in h[Lower(key)])
  {
    AllRegistrationsOk(pairs);
    var (link, text) := pairs[p];
    var (url, anchor) := SplitLink(link).value;
    var regs := AllRegistrations(pairs).value;
    if key in SuffixKeys(Split(anchor, IsNonWordChar)) || key == text {
      DeriveRegistersExactly(link, text, key, link);
      DerivedIsRegistered(pairs, p, Registration(key, link));
      RegisteredIsCandidate(regs, Registration(key, link));
    }
    if PageStem(url) == Some(key) {
      DeriveRegistersExactly(link, text, key, url);
      DerivedIsRegistered(pairs, p, Registration(key, url));
      RegisteredIsCandidate(regs, Registration(key, url));
    }
  }

  /** A keyword that no pair of the page registers, in any letter case, is not in the built index. */
  lemma UnderivedIsAbsent(pairs: seq<(string, string)>, k: string)
    requires AllRegistrations(pairs).Ok?
    requires forall p, r :: 0 <= p < |pairs| && HasOneHash(pairs[p].0) && r in Derive(pairs[p].0, pairs[p].1).value ==>
               Lower(r.key) != k
    ensures k !in HistoryOf(AllRegistrations(pairs).value)
  {
    var regs := AllRegistrations(pairs).value;
    forall r | r in regs
      ensures Lower(r.key) != k
    {
      RegisteredIsDerived(pairs, r);
    }
    CandidatesForNone(regs, k);
    HistoryOfSpec(regs, k);
  }

  /**
   * A keyword whose every registration was of the same link ends up with
   * that link as its best, whatever the weights.
   */
  lemma SoleTargetIsBest(weight: string -> real, regs: seq<Registration>, key: string, link: string)
    requires Registration(key, link) in regs
    requires forall r :: r in regs && Lower(r.key) == Lower(key) ==> r.link == link
    ensures Lower(key) in HistoryOf(regs)
    ensures BestOf(weight, HistoryOf(regs)[Lower(key)]) == Some(link)
  {
    var k := Lower(key);
    RegisteredIsCandidate(regs, Registration(key, link));
    HistoryOfSpec(regs, k);
    var h := HistoryOf(regs)[k];
    forall l | l in h
      ensures l == link
    {
      CandidatesForMembers(regs, k, l);
    }
    OnlyCandidateIsBest(weight, h, link);
  }

  /** Keywords that differ only in letter case find the same link, unless one of them is hard-coded. */
  lemma SearchIgnoresCase(idx: PydocIndex, a: string, b: string)
    requires idx.Valid() && idx.Populated()
    requires a !in Overrides && b !in Overrides && Lower(a) == Lower(b)
    ensures idx.Search(a) == idx.Search(b)
  {
  }

  /** `search` on an index loaded from a page finds nothing for a keyword that no pair of the page derives. */
  lemma UnderivedIsNotFound(idx: PydocIndex, pairs: seq<(string, string)>, keyword: string)
    requires idx.Valid() && idx.Populated()
    requires AllRegistrations(pairs).Ok? && idx.histories == HistoryOf(AllRegistrations(pairs).value)
    requires keyword !in Overrides
    requires forall p, r :: 0 <= p < |pairs| && HasOneHash(pairs[p].0) && r in Derive(pairs[p].0, pairs[p].1).value ==>
               Lower(r.key) != Lower(keyword)
    ensures idx.Search(keyword) == None
  {
    UnderivedIsAbsent(pairs, Lower(keyword));
  }

  /**
   * The hard-coded answer is looked up before lower-casing: `pip` gets it
   * whatever the index holds, while `PIP` is an ordinary keyword.
   */
  lemma OverrideIsCaseSensitive(idx: PydocIndex)
    requires idx.Valid() && idx.Populated()
    ensures idx.Search("pip") == Some(idx.docUrl + "installing/index.html")
    ensures "pip" !in idx.histories ==> idx.Search("PIP") == None
    ensures "pip" in idx.histories ==>
      idx.Search("PIP") == Some(idx.docUrl + BestOf(idx.weight, idx.histories["pip"]).value)
  {
    assert "PIP" != "pip";
    assert Lower("PIP") == "pip";
  }

  /**
   * A keyword that is not hard-coded and is known finds the earliest
   * registered of its heaviest candidates.
   */
  lemma SearchReturnsFirstHeaviest(idx: PydocIndex, keyword: string) returns (i: nat)
    requires idx.Valid() && idx.Populated()
    requires keyword !in Overrides && Lower(keyword) in idx.histories
    ensures var h := idx.histories[Lower(keyword)];
            FirstMaximal(idx.weight, h, i) && idx.Search(keyword) == Some(idx.docUrl + h[i])
  {
    i := BestIsFirstMaximal(idx.weight, idx.histories[Lower(keyword)]);
  }
}
