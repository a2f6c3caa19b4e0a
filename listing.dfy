/**
 * What the two blog harvesters share: the article selectors they try, in
 * priority order, the bound on how many articles they collect, a listing page
 * seen as the elements each selector matches in document order, and the walk
 * both make over it.
 *
 * The walk is stated over what each element yields: for every selector, in
 * priority order, one optional article per matched element. `Collected` lists
 * the articles in that order, and a harvest keeps its first five.
 */
module Listing {
  import opened Options
  import opened Text

  /** The article selectors, highest priority first. */
  const ArticleSelectors: seq<string> := [".blog-post", ".post", "article", ".entry", ".blog-item"]

  /** At most this many articles are harvested from one page. */
  const MaxArticles: nat := 5

  /** The elements `selector` matches on a page, in document order; a selector the page lacks matches nothing. */
  function Matches<E>(page: map<string, seq<E>>, selector: string): (r: seq<E>)
    ensures selector !in page ==> r == []
  {
    if selector in page then page[selector] else []
  }

  /** The articles one selector's elements yield, in document order. */
  function Somes<T>(ys: seq<Option<T>>): seq<T> {
    if ys == [] then []
    else Somes(ys[..|ys| - 1]) + match ys[|ys| - 1] case None => [] case Some(a) => [a]
  }

  /** The articles every selector's elements yield: selector order first, then document order. */
  function Collected<T>(groups: seq<seq<Option<T>>>): seq<T> {
    if groups == [] then []
    else Collected(groups[..|groups| - 1]) + Somes(groups[|groups| - 1])
  }

  /** No more articles than elements, and an article exactly for each element that yields one. */
  lemma {:induction false} SomesMembers<T>(ys: seq<Option<T>>)
    ensures |Somes(ys)| <= |ys|
    ensures forall a :: a in Somes(ys) <==> Some(a) in ys
  {
    if ys != [] {
      var init := ys[..|ys| - 1];
      SomesMembers(init);
      assert ys == init + [ys[|ys| - 1]];
    }
  }

  /** The articles of two runs of elements are those of the first followed by those of the second. */
  lemma {:induction false} SomesAppend<T>(xs: seq<Option<T>>, ys: seq<Option<T>>)
    ensures Somes(xs + ys) == Somes(xs) + Somes(ys)
  {
    if ys == [] {
      assert xs + ys == xs;
    } else {
      var zs := xs + ys;
      assert zs[..|zs| - 1] == xs + ys[..|ys| - 1];
      SomesAppend(xs, ys[..|ys| - 1]);
    }
  }

  /** The articles of two runs of selectors are those of the first followed by those of the second. */
  lemma {:induction false} CollectedAppend<T>(gs: seq<seq<Option<T>>>, hs: seq<seq<Option<T>>>)
    ensures Collected(gs + hs) == Collected(gs) + Collected(hs)
  {
    if hs == [] {
      assert gs + hs == gs;
    } else {
      var ks := gs + hs;
      assert ks[..|ks| - 1] == gs + hs[..|hs| - 1];
      CollectedAppend(gs, hs[..|hs| - 1]);
    }
  }

  /** An article is collected exactly when some selector has an element yielding it. */
  lemma {:induction false} CollectedMembers<T>(gs: seq<seq<Option<T>>>)
    ensures forall a :: a in Collected(gs) <==> exists k :: 0 <= k < |gs| && Some(a) in gs[k]
  {
    if gs != [] {
      var init := gs[..|gs| - 1];
      var last := gs[|gs| - 1];
      CollectedMembers(init);
      SomesMembers(last);
      forall a
        ensures a in Collected(gs) <==> exists k :: 0 <= k < |gs| && Some(a) in gs[k]
      {
        if exists k :: 0 <= k < |gs| && Some(a) in gs[k] {
          var k :| 0 <= k < |gs| && Some(a) in gs[k];
          if k < |init| {
            assert init[k] == gs[k];
          }
        }
        if a in Collected(init) {
          var k :| 0 <= k < |init| && Some(a) in init[k];
          assert gs[k] == init[k];
        }
      }
    }
  }

  /** An article some selector's element yields is collected. */
  lemma {:induction false} CollectedHas<T>(gs: seq<seq<Option<T>>>, k: nat, a: T)
    requires k < |gs| && Some(a) in gs[k]
    ensures a in Collected(gs)
  {
    var init := gs[..|gs| - 1];
    if k < |gs| - 1 {
      assert init[k] == gs[k];
      CollectedHas(init, k, a);
    } else {
      SomesMembers(gs[k]);
    }
  }

  /** No de-duplication: an article two selectors both yield is collected twice. */
  lemma {:induction false} CollectedKeepsDuplicates<T>(gs: seq<seq<Option<T>>>, i: nat, j: nat, a: T)
    requires i < j < |gs| && Some(a) in gs[i] && Some(a) in gs[j]
    ensures multiset(Collected(gs))[a] >= 2
  {
    var init := gs[..|gs| - 1];
    var front := Collected(init);
    var back := Somes(gs[|gs| - 1]);
    assert Collected(gs) == front + back;
    assert init[i] == gs[i];
    assert multiset(front + back) == multiset(front) + multiset(back);
    if j == |gs| - 1 {
      CollectedMembers(init);
      SomesMembers(gs[j]);
      assert a in front && a in back;
      assert a in multiset(front) && a in multiset(back);
    } else {
      assert init[j] == gs[j];
      CollectedKeepsDuplicates(init, i, j, a);
    }
  }

  /** One more element looked at while fewer than `n` articles are collected adds its article, if any. */
  lemma WalkStep<T>(done: seq<T>, ys: seq<Option<T>>, j: nat, n: nat)
    requires j < |ys| && |done + Somes(ys[..j])| < n
    ensures Take(done + Somes(ys[..j + 1]), n) ==
      Take(done + Somes(ys[..j]), n) + match ys[j] case None => [] case Some(a) => [a]
  {
    var prev := done + Somes(ys[..j]);
    var extra: seq<T> := match ys[j] case None => [] case Some(a) => [a];
    assert done + Somes(ys[..j + 1]) == prev + extra by {
      assert ys[..j + 1][..j] == ys[..j];
    }
    TakeAppendShort(prev, extra, n);
  }

  /** Once `n` articles are collected, the remaining elements add none to the first `n`. */
  lemma WalkSaturated<T>(done: seq<T>, ys: seq<Option<T>>, j: nat, n: nat)
    requires j <= |ys| && |done + Somes(ys[..j])| >= n
    ensures Take(done + Somes(ys[..j]), n) == Take(done + Somes(ys), n)
  {
    assert ys == ys[..j] + ys[j..];
    SomesAppend(ys[..j], ys[j..]);
    assert done + Somes(ys) == (done + Somes(ys[..j])) + Somes(ys[j..]);
    TakeSaturated(done + Somes(ys[..j]), Somes(ys[j..]), n);
  }

  /** Once `n` articles are collected, one more element leaves the first `n` as they are. */
  lemma WalkSkip<T>(done: seq<T>, ys: seq<Option<T>>, j: nat, n: nat)
    requires j < |ys| && |done + Somes(ys[..j])| >= n
    ensures Take(done + Somes(ys[..j + 1]), n) == Take(done + Somes(ys[..j]), n)
  {
    var prev := done + Somes(ys[..j]);
    var extra: seq<T> := match ys[j] case None => [] case Some(a) => [a];
    assert done + Somes(ys[..j + 1]) == prev + extra by {
      assert ys[..j + 1][..j] == ys[..j];
    }
    TakeSaturated(prev, extra, n);
  }

  /** The articles of the selectors through `gs[i]` are those before it followed by its own. */
  lemma CollectedStep<T>(gs: seq<seq<Option<T>>>, i: nat)
    requires i < |gs|
    ensures Collected(gs[..i + 1]) == Collected(gs[..i]) + Somes(gs[i])
  {
    assert gs[..i + 1][..i] == gs[..i];
  }

  /** Once `n` articles come from the selectors through `gs[i]`, the later selectors add none to the first `n`. */
  lemma CollectedSaturated<T>(gs: seq<seq<Option<T>>>, i: nat, n: nat)
    requires i < |gs| && |Collected(gs[..i + 1])| >= n
    ensures Take(Collected(gs[..i + 1]), n) == Take(Collected(gs), n)
  {
    assert gs[..i + 1] + gs[i + 1..] == gs;
    CollectedAppend(gs[..i + 1], gs[i + 1..]);
    TakeSaturated(Collected(gs[..i + 1]), Collected(gs[i + 1..]), n);
  }
}
