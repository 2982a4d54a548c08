/**
 * Best-link bookkeeping for one keyword (`PydocIndexEntry`). The candidate
 * map and the best link are specified as functions of the history of
 * registered links, in order; the class keeps both up to date in place.
 */
module Ranking {
  import opened Wrappers

  /** The candidate map `links` after registering every link of `h`, in order. */
  function LinksOf(weight: string -> real, h: seq<string>): (links: map<string, real>)
    decreases |h|
  {
    if h == [] then map[]
    else LinksOf(weight, h[..|h| - 1])[h[|h| - 1] := weight(h[|h| - 1])]
  }

  /** The candidates are exactly the registered links, each with its own weight. */
  lemma {:induction false} LinksOfSpec(weight: string -> real, h: seq<string>)
    ensures forall l :: l in LinksOf(weight, h) <==> l in h
    ensures forall l :: l in LinksOf(weight, h) ==> LinksOf(weight, h)[l] == weight(l)
    decreases |h|
  {
    if h != [] {
      var n := |h| - 1;
      LinksOfSpec(weight, h[..n]);
      assert h == h[..n] + [h[n]];
    }
  }

  /**
   * `best_link` after registering every link of `h`, in order: the first
   * registration becomes best, and a later one replaces it only when its
   * weight is strictly greater.
   */
  function BestOf(weight: string -> real, h: seq<string>): (b: Option<string>)
    ensures b.None? <==> h == []
    decreases |h|
  {
    if h == [] then None
    else
      var prev := BestOf(weight, h[..|h| - 1]);
      var l := h[|h| - 1];
      if prev.None? || weight(l) > weight(prev.value) then Some(l) else prev
  }

  /** The best link is one of the registered links, and none of them weighs more. */
  lemma {:induction false} BestOfSpec(weight: string -> real, h: seq<string>)
    requires h != []
    ensures BestOf(weight, h).value in h
    ensures forall l :: l in h ==> weight(l) <= weight(BestOf(weight, h).value)
    decreases |h|
  {
    var n := |h| - 1;
    var pre := h[..n];
    var b := BestOf(weight, h).value;
    if n == 0 {
      assert b == h[0];
    } else {
      BestOfSpec(weight, pre);
      var p := BestOf(weight, pre).value;
      assert b == h[n] || b == p;
      assert weight(p) <= weight(b) && weight(h[n]) <= weight(b);
      forall l | l in h
        ensures weight(l) <= weight(b)
      {
        var j :| 0 <= j < |h| && h[j] == l;
        if j < n {
          assert pre[j] == l;
        }
      }
    }
  }

  /** Position `i` of `h` holds a link of maximal weight, and every earlier link weighs strictly less. */
  ghost predicate FirstMaximal(weight: string -> real, h: seq<string>, i: nat) {
    i < |h| &&
    (forall j :: 0 <= j < |h| ==> weight(h[j]) <= weight(h[i])) &&
    (forall j :: 0 <= j < i ==> weight(h[j]) < weight(h[i]))
  }

  /**
   * The incremental rule picks exactly the earliest registered link of
   * maximal weight: ties go to the first registration. The position is
   * returned; `FirstMaximal` admits only one.
   */
  lemma {:induction false} BestIsFirstMaximal(weight: string -> real, h: seq<string>) returns (i: nat)
    requires h != []
    ensures FirstMaximal(weight, h, i) && BestOf(weight, h) == Some(h[i])
    decreases |h|
  {
    var n := |h| - 1;
    var pre := h[..n];
    var l := h[n];
    assert forall j :: 0 <= j < n ==> h[j] == pre[j];
    if pre == [] {
      i := 0;
    } else {
      var k := BestIsFirstMaximal(weight, pre);
      if weight(l) > weight(pre[k]) {
        i := n;
      } else {
        i := k;
      }
    }
  }

  /** Registering a link that weighs exactly as much as the best one leaves the best alone. */
  lemma TieKeepsFirst(weight: string -> real, h: seq<string>, l: string)
    requires h != [] && weight(l) == weight(BestOf(weight, h).value)
    ensures BestOf(weight, h + [l]) == BestOf(weight, h)
  {
    assert (h + [l])[..|h|] == h;
  }

  /** Registering a link again changes neither the candidate map nor the best link. */
  lemma ReRegisterIsIdempotent(weight: string -> real, h: seq<string>, l: string)
    requires l in h
    ensures LinksOf(weight, h + [l]) == LinksOf(weight, h)
    ensures BestOf(weight, h + [l]) == BestOf(weight, h)
  {
    assert (h + [l])[..|h|] == h;
    LinksOfSpec(weight, h);
    BestOfSpec(weight, h);
  }

  /**
   * After any non-empty sequence of registrations the best link is one of
   * the candidates, and no candidate weighs more.
   */
  lemma BestLinkIsHeaviest(weight: string -> real, h: seq<string>)
    requires h != []
    ensures var links := LinksOf(weight, h);
            var best := BestOf(weight, h);
            best.Some? && best.value in links &&
            forall l :: l in links ==> links[l] <= links[best.value]
  {
    LinksOfSpec(weight, h);
    BestOfSpec(weight, h);
  }

  /** When every registration was of the same link, that link is the best. */
  lemma OnlyCandidateIsBest(weight: string -> real, h: seq<string>, link: string)
    requires link in h && forall l :: l in h ==> l == link
    ensures BestOf(weight, h) == Some(link)
  {
    BestOfSpec(weight, h);
  }

  /** One keyword's candidate links with their weights, and the best of them. */
  class IndexEntry {
    const keyword: string
    const weight: string -> real
    var links: map<string, real>
    var bestLink: Option<string>
    /** Every link registered so far, in order. */
    ghost var history: seq<string>

    ghost predicate Valid()
      reads this
    {
      links == LinksOf(weight, history) && bestLink == BestOf(weight, history)
    }

    constructor (keyword: string, weight: string -> real)
      ensures Valid()
      ensures this.keyword == keyword && this.weight == weight
      ensures links == map[] && bestLink == None && history == []
    {
      this.keyword := keyword;
      this.weight := weight;
      links := map[];
      bestLink := None;
      history := [];
    }

    /**
     * `register`: records the link with its weight, and makes it best when
     * there is no best yet or it weighs strictly more than the best.
     */
    method Register(link: string)
      requires Valid()
      modifies this
      ensures Valid() && history == old(history) + [link]
      ensures links == old(links)[link := weight(link)]
      ensures bestLink ==
        if old(bestLink).None? || weight(link) > weight(old(bestLink).value)
        then Some(link) else old(bestLink)
    {
      if history != [] {
        LinksOfSpec(weight, history);
        BestOfSpec(weight, history);
      }
      var w := weight(link);
      links := links[link := w];
      if bestLink.None? {
        bestLink := Some(link);
      } else if w > links[bestLink.value] {
        bestLink := Some(link);
      }
      history := history + [link];
      assert history[..|history| - 1] == old(history);
    }
  }
}
