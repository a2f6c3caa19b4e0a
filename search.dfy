/**
 * Reading search hits off a results page: the first five result anchors are
 * scanned in page order, hits whose target is missing or mentions the search
 * engine's or the video site's domain are dropped, and the first two survivors
 * are returned.
 */
module Search {
  import opened Options
  import opened Text

  /**
   * One result anchor of the page: `q` is the decoded `q` parameter of its href
   * (`None` when absent), `h3` the text of its first `h3` descendant (`None` when it has none).
   */
  datatype Anchor = Anchor(q: Option<string>, h3: Option<string>)

  /** A search hit as returned to the orchestrator. */
  datatype SearchHit = SearchHit(url: string, title: string)

  /** How many anchors are inspected, and how many hits are kept. */
  const MaxScanned: nat := 5
  const MaxResults: nat := 2

  /** A hit is kept when its target is a non-empty string mentioning neither excluded domain (a substring test). */
  predicate Admissible(q: Option<string>) {
    q.Some? && q.value != "" && !Contains(q.value, "google.com") && !Contains(q.value, "youtube.com")
  }

  function HitOf(a: Anchor): SearchHit
    requires Admissible(a.q)
  {
    SearchHit(a.q.value, a.h3.GetOr(""))
  }

  /** The hits of the admissible anchors, in page order. */
  function Admitted(anchors: seq<Anchor>): (r: seq<SearchHit>)
    ensures |r| <= |anchors|
    ensures forall k :: 0 <= k < |r| ==>
      r[k].url != "" && !Contains(r[k].url, "google.com") && !Contains(r[k].url, "youtube.com")
  {
    if anchors == [] then []
    else
      var a := anchors[|anchors| - 1];
      Admitted(anchors[..|anchors| - 1]) + if Admissible(a.q) then [HitOf(a)] else []
  }

  /** Filtering is compositional: the hits of a concatenation are the hits of each part, in order. */
  lemma {:induction false} AdmittedConcat(xs: seq<Anchor>, ys: seq<Anchor>)
    ensures Admitted(xs + ys) == Admitted(xs) + Admitted(ys)
  {
    if ys != [] {
      var zs := xs + ys;
      assert zs[..|zs| - 1] == xs + ys[..|ys| - 1];
      AdmittedConcat(xs, ys[..|ys| - 1]);
    } else {
      assert xs + ys == xs;
    }
  }

  /** A hit is admitted exactly when it comes from an admissible anchor; no more hits than anchors. */
  lemma {:induction false} AdmittedMembers(anchors: seq<Anchor>)
    ensures |Admitted(anchors)| <= |anchors|
    ensures forall h :: h in Admitted(anchors) <==>
      exists a :: a in anchors && Admissible(a.q) && HitOf(a) == h
  {
    if anchors != [] {
      var init := anchors[..|anchors| - 1];
      AdmittedMembers(init);
      assert anchors == init + [anchors[|anchors| - 1]];
    }
  }

  /** The in-page scan: inspects at most `MaxScanned` anchors and collects the admissible ones. */
  method EvaluateLinks(elements: seq<Anchor>) returns (links: seq<SearchHit>)
    ensures links == Admitted(Take(elements, MaxScanned))
  {
    links := [];
    var n := if |elements| < MaxScanned then |elements| else MaxScanned;
    for i := 0 to n
      invariant links == Admitted(elements[..i])
    {
      var element := elements[i];
      if Admissible(element.q) {
        links := links + [HitOf(element)];
      }
      assert elements[..i + 1][..i] == elements[..i];
    }
    assert elements[..n] == Take(elements, MaxScanned);
  }

  /** What the search step returns for a page whose scan succeeded (`Some`) or raised (`None`). */
  function SearchResults(page: Option<seq<Anchor>>): (r: seq<SearchHit>)
    ensures page.None? ==> r == []
  {
    match page
    case None => []
    case Some(elements) => Take(Admitted(Take(elements, MaxScanned)), MaxResults)
  }

  /** At most two hits, each from an admissible anchor among the first five, the first ones in page order. */
  lemma SearchResultsShape(page: Option<seq<Anchor>>)
    ensures |SearchResults(page)| <= MaxResults
    ensures page.Some? ==> SearchResults(page) <= Admitted(Take(page.value, MaxScanned))
    ensures forall h :: h in SearchResults(page) ==>
      h.url != "" && !Contains(h.url, "google.com") && !Contains(h.url, "youtube.com")
  {
    if page.Some? {
      var kept := Admitted(Take(page.value, MaxScanned));
      AdmittedMembers(Take(page.value, MaxScanned));
      forall h | h in SearchResults(page)
        ensures h.url != "" && !Contains(h.url, "google.com") && !Contains(h.url, "youtube.com")
      {
        assert h in kept;
        var a :| a in Take(page.value, MaxScanned) && Admissible(a.q) && HitOf(a) == h;
      }
    }
  }

  /** Filtering happens before the cut: excluded hits never take one of the two places. */
  lemma FilterBeforeCut(elements: seq<Anchor>)
    ensures var kept := Admitted(Take(elements, MaxScanned));
      |SearchResults(Some(elements))| == if |kept| < MaxResults then |kept| else MaxResults
  {
  }

  /**
   * Five hits whose first is a video link and whose last has no target: the video
   * link is dropped before the cut, so the second and third hits are returned.
   */
  lemma VideoHitExcluded(a0: Anchor, a1: Anchor, a2: Anchor, a3: Anchor, a4: Anchor)
    requires a0.q.Some? && Contains(a0.q.value, "youtube.com")
    requires Admissible(a1.q) && Admissible(a2.q) && Admissible(a3.q) && a4.q.None?
    ensures SearchResults(Some([a0, a1, a2, a3, a4])) == [HitOf(a1), HitOf(a2)]
  {
    assert Admitted([a0]) == [] by { assert [a0][..0] == []; }
    assert Admitted([a0, a1]) == [HitOf(a1)] by { assert [a0, a1][..1] == [a0]; }
    assert Admitted([a0, a1, a2]) == [HitOf(a1), HitOf(a2)] by { assert [a0, a1, a2][..2] == [a0, a1]; }
    assert Admitted([a0, a1, a2, a3]) == [HitOf(a1), HitOf(a2), HitOf(a3)] by {
      assert [a0, a1, a2, a3][..3] == [a0, a1, a2];
    }
    assert [a0, a1, a2, a3, a4][..4] == [a0, a1, a2, a3];
  }
}
