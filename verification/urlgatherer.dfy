/**
 * `URLGatherer` (lib/UrlGatherer.php): a visitor whose only callback is `visitBookmark`,
 * which appends the bookmark's href to its `urls` array. Folders, separators and aliases
 * reach the inherited no-op callbacks of AbstractXBELVisitor.
 */
module UrlGatherer {
  import opened XbelNodes
  import opened Traversal

  /** What one callback adds to `urls`: the href of a bookmark passed to visitBookmark. */
  function UrlOf(h: seq<Node>, c: Callback): (added: seq<Str>)
    ensures |added| <= 1
    ensures Fits(h, c) ==> (added != [] <==> c.VisitBookmark?)
    ensures Fits(h, c) && c.VisitBookmark? ==> added == [h[c.node].href]
  {
    if c.VisitBookmark? && c.node < |h| && h[c.node].Bookmark? then [h[c.node].href] else []
  }

  /** `urls` after a gatherer has seen the callbacks `t`, starting from the empty array. */
  function Urls(h: seq<Node>, t: seq<Callback>): seq<Str> {
    if t == [] then [] else Urls(h, t[..|t| - 1]) + UrlOf(h, t[|t| - 1])
  }

  /** What `URLGatherer::gather($xbel)` returns for the node at `i`. */
  function Gathered(h: seq<Node>, i: nat): seq<Str>
    requires WellFormed(h) && i < |h|
  {
    Urls(h, Visit(h, i))
  }

  /** The bookmark nodes a trace visits, in the order it visits them. */
  function BookmarksOf(t: seq<Callback>): (bs: seq<nat>)
    ensures forall k :: 0 <= k < |bs| ==> VisitBookmark(bs[k]) in t
  {
    if t == [] then []
    else
      var last := t[|t| - 1];
      assert t == t[..|t| - 1] + [last];
      BookmarksOf(t[..|t| - 1]) + if last.VisitBookmark? then [last.node] else []
  }

  lemma {:induction false} UrlsConcat(h: seq<Node>, a: seq<Callback>, b: seq<Callback>)
    ensures Urls(h, a + b) == Urls(h, a) + Urls(h, b)
    decreases |b|
  {
    if b != [] {
      var b' := b[..|b| - 1];
      assert (a + b)[..|a + b| - 1] == a + b';
      assert (a + b)[|a + b| - 1] == b[|b| - 1];
      UrlsConcat(h, a, b');
    } else {
      assert a + b == a;
    }
  }

  lemma UrlsOne(h: seq<Node>, c: Callback)
    ensures Urls(h, [c]) == UrlOf(h, c)
  {
    assert [c][..0] == [];
  }

  /**
   * The urls of a trace are the hrefs of the bookmarks it visits, one per `visitBookmark`
   * callback and in the same order.
   */
  lemma {:induction false} UrlsAreBookmarkHrefs(h: seq<Node>, t: seq<Callback>)
    requires AllFit(h, t)
    ensures var bs := BookmarksOf(t);
      && |Urls(h, t)| == |bs|
      && forall k :: 0 <= k < |bs| ==> bs[k] < |h| && h[bs[k]].Bookmark? && Urls(h, t)[k] == h[bs[k]].href
  {
    if t != [] {
      var t' := t[..|t| - 1];
      assert AllFit(h, t') by {
        assert forall k :: 0 <= k < |t'| ==> t'[k] == t[k];
      }
      assert Fits(h, t[|t| - 1]);
      UrlsAreBookmarkHrefs(h, t');
    }
  }

  /** No node is listed twice. */
  ghost predicate NoRepeats(bs: seq<nat>) {
    forall k1, k2 :: 0 <= k1 < k2 < |bs| ==> bs[k1] != bs[k2]
  }

  /** A trace that repeats no callback lists no bookmark twice. */
  lemma {:induction false} BookmarksDistinct(t: seq<Callback>)
    requires Distinct(t)
    ensures NoRepeats(BookmarksOf(t))
  {
    if t != [] {
      var t' := t[..|t| - 1];
      var last := t[|t| - 1];
      assert Distinct(t') by {
        assert forall k :: 0 <= k < |t'| ==> t'[k] == t[k];
      }
      BookmarksDistinct(t');
      var bs', bs := BookmarksOf(t'), BookmarksOf(t);
      if last.VisitBookmark? {
        assert bs == bs' + [last.node];
        forall k1, k2 | 0 <= k1 < k2 < |bs| ensures bs[k1] != bs[k2] {
          if k2 == |bs'| {
            var m :| 0 <= m < |t'| && t'[m] == VisitBookmark(bs'[k1]);
            assert t[m] == t'[m] && t[m] != t[|t| - 1];
          } else {
            assert bs[k1] == bs'[k1] && bs[k2] == bs'[k2];
          }
        }
      } else {
        assert bs == bs';
      }
    }
  }

  /**
   * `class URLGatherer` (lib/UrlGatherer.php:8-31): the array of URLs collected so far,
   * appended in place as the traversal reaches bookmarks.
   */
  class URLGatherer {
    var urls: seq<Str>

    /** `var $urls = array()`: every gatherer starts empty (lib/UrlGatherer.php:11). */
    constructor ()
      ensures urls == []
    {
      urls := [];
    }

    /** `visitBookmark($bookmark)`: `$this->urls[] = $bookmark->href` (lib/UrlGatherer.php:27-30). */
    method VisitBookmark(h: seq<Node>, i: nat)
      requires i < |h| && h[i].Bookmark?
      modifies this
      ensures urls == old(urls) + [h[i].href]
    {
      urls := urls + [h[i].href];
    }

    /** One callback; every callback but visitBookmark is the inherited no-op. */
    method Dispatch(h: seq<Node>, c: Callback)
      requires Fits(h, c)
      modifies this
      ensures urls == old(urls) + UrlOf(h, c)
    {
      if c.VisitBookmark? {
        VisitBookmark(h, c.node);
      }
    }
  }

  /**
   * `URLGatherer::gather($xbel)` (lib/UrlGatherer.php:19-24): a fresh gatherer visits the
   * node and its `urls` are returned.
   */
  method Gather(h: seq<Node>, i: nat) returns (urls: seq<Str>)
    requires WellFormed(h) && i < |h|
    ensures urls == Gathered(h, i)
  {
    var gatherer := new URLGatherer();
    var trace := Visit(h, i);
    VisitKinds(h, i);
    assert trace[..0] == [];
    for j := 0 to |trace|
      invariant gatherer.urls == Urls(h, trace[..j])
    {
      assert trace[..j + 1][..j] == trace[..j];
      assert Fits(h, trace[j]);
      gatherer.Dispatch(h, trace[j]);
    }
    assert trace[..|trace|] == trace;
    urls := gatherer.urls;
  }

  /** Gathering a lone bookmark gives a one-element list holding its href. */
  lemma GatherBookmark(h: seq<Node>, i: nat)
    requires WellFormed(h) && i < |h| && h[i].Bookmark?
    ensures Gathered(h, i) == [h[i].href]
  {
    VisitOrder(h, i);
    UrlsOne(h, VisitBookmark(i));
  }

  /**
   * A separator or an alias contributes nothing: an alias is not followed, so a bookmark
   * reached through an alias is not gathered a second time.
   */
  lemma GatherLeaf(h: seq<Node>, i: nat)
    requires WellFormed(h) && i < |h| && (h[i].Separator? || h[i].Alias?)
    ensures Gathered(h, i) == []
  {
    VisitOrder(h, i);
    if h[i].Separator? {
      UrlsOne(h, VisitSeparator(i));
    } else {
      UrlsOne(h, VisitAlias(i));
    }
  }

  /** A folder gives its children's urls, child after child, and none of its own. */
  lemma GatherFolder(h: seq<Node>, i: nat)
    requires WellFormed(h) && i < |h| && h[i].Folder?
    ensures Forward(h[i].children, i, |h|)
    ensures Gathered(h, i) == Urls(h, VisitChildren(h, h[i].children, i))
  {
    var inner := VisitChildren(h, h[i].children, i);
    UrlsOne(h, BeforeVisitingFolder(i));
    UrlsOne(h, VisitFolder(i));
    UrlsOne(h, AfterVisitingFolder(i));
    UrlsConcat(h, [BeforeVisitingFolder(i)], [VisitFolder(i)]);
    var before := [BeforeVisitingFolder(i)] + [VisitFolder(i)];
    UrlsConcat(h, before, inner);
    UrlsConcat(h, before + inner, [AfterVisitingFolder(i)]);
    assert [BeforeVisitingFolder(i), VisitFolder(i)] == before;
  }

  /** The children's urls, child after child. */
  lemma GatherChildren(h: seq<Node>, cs: seq<nat>, parent: nat)
    requires WellFormed(h) && Forward(cs, parent, |h|) && cs != []
    ensures Urls(h, VisitChildren(h, cs, parent)) == Gathered(h, cs[0]) + Urls(h, VisitChildren(h, cs[1..], parent))
  {
    UrlsConcat(h, Visit(h, cs[0]), VisitChildren(h, cs[1..], parent));
  }

  /**
   * In a tree whose parent links are `p`, the gathered urls are the hrefs of distinct
   * bookmarks of the subtree, in document order.
   */
  lemma GatheredBookmarks(h: seq<Node>, p: seq<int>, i: nat)
    requires WellFormed(h) && Parents(h, p) && i < |h|
    ensures var bs := BookmarksOf(Visit(h, i));
      && |Gathered(h, i)| == |bs|
      && (forall k :: 0 <= k < |bs| ==>
            bs[k] < |h| && h[bs[k]].Bookmark? && Descends(p, i, bs[k]) && Gathered(h, i)[k] == h[bs[k]].href)
      && (forall k1, k2 :: 0 <= k1 < k2 < |bs| ==> bs[k1] != bs[k2])
  {
    var t := Visit(h, i);
    VisitKinds(h, i);
    VisitDistinct(h, p, i);
    UrlsAreBookmarkHrefs(h, t);
    BookmarksDistinct(t);
    var bs := BookmarksOf(t);
    forall k | 0 <= k < |bs| ensures Descends(p, i, bs[k]) {
      var m :| 0 <= m < |t| && t[m] == VisitBookmark(bs[k]);
      assert t[m].node == bs[k];
    }
  }
}
