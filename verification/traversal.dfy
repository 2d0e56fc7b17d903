/**
 * The visitor protocol (lib/XBEL/AbstractXBELVisitor.php and the `visit` methods of
 * Folder, Bookmark, Separator and Alias). A traversal is modelled by the sequence of
 * callbacks it makes on the visitor; a visitor is then whatever it does with each callback,
 * in that order.
 */
module Traversal {
  import opened XbelNodes

  /** One call on the visitor, naming the node it is passed. */
  datatype Callback =
    | BeforeVisitingFolder(node: nat)
    | VisitFolder(node: nat)
    | AfterVisitingFolder(node: nat)
    | VisitBookmark(node: nat)
    | VisitSeparator(node: nat)
    | VisitAlias(node: nat)

  /** `$node->visit($visitor)`: the callbacks made, in order. */
  function Visit(h: seq<Node>, i: nat): (trace: seq<Callback>)
    requires WellFormed(h) && i < |h|
    decreases |h| - i, 1, 0
  {
    match h[i]
    case Folder(_, _, cs) =>
      [BeforeVisitingFolder(i), VisitFolder(i)] + VisitChildren(h, cs, i) + [AfterVisitingFolder(i)]
    case Bookmark(_, _, _, _, _) => [VisitBookmark(i)]
    case Separator => [VisitSeparator(i)]
    case Alias(_) => [VisitAlias(i)]
    case Null => []
  }

  /** The `foreach ($this->children as $child) $child->visit($visitor)` loop of a folder. */
  function VisitChildren(h: seq<Node>, cs: seq<nat>, parent: nat): (trace: seq<Callback>)
    requires WellFormed(h)
    requires Forward(cs, parent, |h|)
    decreases |h| - parent, 0, |cs|
  {
    if cs == [] then [] else Visit(h, cs[0]) + VisitChildren(h, cs[1..], parent)
  }

  /**
   * Replays the folder brackets of a trace against a stack of open folders: a
   * BeforeVisitingFolder opens one, an AfterVisitingFolder must close the innermost open one.
   * None when a close does not match.
   */
  function Brackets(trace: seq<Callback>, open: seq<nat>): Option<seq<nat>>
  {
    if trace == [] then Some(open)
    else match trace[0]
      case BeforeVisitingFolder(f) => Brackets(trace[1..], open + [f])
      case AfterVisitingFolder(f) =>
        if |open| > 0 && open[|open| - 1] == f then Brackets(trace[1..], open[..|open| - 1]) else None
      case _ => Brackets(trace[1..], open)
  }

  lemma BracketsStep(x: Callback, tail: seq<Callback>, open: seq<nat>)
    ensures x.BeforeVisitingFolder? ==> Brackets([x] + tail, open) == Brackets(tail, open + [x.node])
    ensures x.AfterVisitingFolder? ==>
      Brackets([x] + tail, open) ==
        if |open| > 0 && open[|open| - 1] == x.node then Brackets(tail, open[..|open| - 1]) else None
    ensures !x.BeforeVisitingFolder? && !x.AfterVisitingFolder? ==> Brackets([x] + tail, open) == Brackets(tail, open)
  {
    assert ([x] + tail)[0] == x;
    assert ([x] + tail)[1..] == tail;
  }

  /**
   * Every folder's before and after callbacks bracket the callbacks of its subtree: from any
   * stack of open folders, the trace of a node opens and closes properly and leaves that stack
   * as it found it (lib/XBEL/Folder.php:29-37).
   */
  lemma {:induction false} VisitBracketed(h: seq<Node>, i: nat, rest: seq<Callback>, open: seq<nat>)
    requires WellFormed(h) && i < |h|
    ensures Brackets(Visit(h, i) + rest, open) == Brackets(rest, open)
    decreases |h| - i, 1, 0
  {
    match h[i]
    case Folder(_, _, cs) =>
      var inner := VisitChildren(h, cs, i);
      calc {
        Brackets(Visit(h, i) + rest, open);
        { assert Visit(h, i) + rest == [BeforeVisitingFolder(i)] + ([VisitFolder(i)] + (inner + ([AfterVisitingFolder(i)] + rest))); }
        Brackets([BeforeVisitingFolder(i)] + ([VisitFolder(i)] + (inner + ([AfterVisitingFolder(i)] + rest))), open);
        { BracketsStep(BeforeVisitingFolder(i), [VisitFolder(i)] + (inner + ([AfterVisitingFolder(i)] + rest)), open); }
        Brackets([VisitFolder(i)] + (inner + ([AfterVisitingFolder(i)] + rest)), open + [i]);
        { BracketsStep(VisitFolder(i), inner + ([AfterVisitingFolder(i)] + rest), open + [i]); }
        Brackets(inner + ([AfterVisitingFolder(i)] + rest), open + [i]);
        { VisitChildrenBracketed(h, cs, i, [AfterVisitingFolder(i)] + rest, open + [i]); }
        Brackets([AfterVisitingFolder(i)] + rest, open + [i]);
        { BracketsStep(AfterVisitingFolder(i), rest, open + [i]);
          assert (open + [i])[..|open + [i]| - 1] == open; }
        Brackets(rest, open);
      }
    case Bookmark(_, _, _, _, _) => BracketsStep(VisitBookmark(i), rest, open);
    case Separator => BracketsStep(VisitSeparator(i), rest, open);
    case Alias(_) => BracketsStep(VisitAlias(i), rest, open);
    case Null =>
  }

  lemma {:induction false} VisitChildrenBracketed(h: seq<Node>, cs: seq<nat>, parent: nat, rest: seq<Callback>, open: seq<nat>)
    requires WellFormed(h)
    requires Forward(cs, parent, |h|)
    ensures Brackets(VisitChildren(h, cs, parent) + rest, open) == Brackets(rest, open)
    decreases |h| - parent, 0, |cs|
  {
    if cs == [] {
      assert VisitChildren(h, cs, parent) + rest == rest;
    } else {
      var tail := VisitChildren(h, cs[1..], parent);
      calc {
        Brackets(VisitChildren(h, cs, parent) + rest, open);
        { assert VisitChildren(h, cs, parent) + rest == Visit(h, cs[0]) + (tail + rest); }
        Brackets(Visit(h, cs[0]) + (tail + rest), open);
        { VisitBracketed(h, cs[0], tail + rest, open); }
        Brackets(tail + rest, open);
        { VisitChildrenBracketed(h, cs[1..], parent, rest, open); }
        Brackets(rest, open);
      }
    }
  }

  /** A whole traversal is balanced: it closes every folder it opens, innermost first. */
  lemma VisitBalanced(h: seq<Node>, i: nat)
    requires WellFormed(h) && i < |h|
    ensures Brackets(Visit(h, i), []) == Some([])
  {
    VisitBracketed(h, i, [], []);
    assert Visit(h, i) + [] == Visit(h, i);
  }

  /**
   * Depth-first pre-order: a folder's own before and visit callbacks come first and its after
   * callback last, every callback in between is about a node created after it, and a
   * bookmark, separator or alias makes exactly one callback about itself
   * (lib/XBEL/Folder.php:29-37, lib/XBEL/Bookmark.php:45-48, lib/XBEL/Alias.php:26-34).
   */
  lemma {:induction false} VisitOrder(h: seq<Node>, i: nat)
    requires WellFormed(h) && i < |h|
    ensures NodesIn(Visit(h, i), i, |h|)
    ensures h[i].Folder? ==>
      var t := Visit(h, i);
      && |t| >= 3 && t[0] == BeforeVisitingFolder(i) && t[1] == VisitFolder(i)
      && t[|t| - 1] == AfterVisitingFolder(i)
      && NodesIn(t[2..|t| - 1], i + 1, |h|)
    ensures h[i].Bookmark? ==> Visit(h, i) == [VisitBookmark(i)]
    ensures h[i].Separator? ==> Visit(h, i) == [VisitSeparator(i)]
    ensures h[i].Alias? ==> Visit(h, i) == [VisitAlias(i)]
    decreases |h| - i, 1, 0
  {
    if h[i].Folder? {
      var cs := h[i].children;
      var inner := VisitChildren(h, cs, i);
      var t := Visit(h, i);
      assert t == [BeforeVisitingFolder(i), VisitFolder(i)] + inner + [AfterVisitingFolder(i)];
      VisitChildrenAbove(h, cs, i);
      assert t[2..|t| - 1] == inner;
      NodesInConcat([BeforeVisitingFolder(i), VisitFolder(i)], inner, i, |h|);
      NodesInConcat([BeforeVisitingFolder(i), VisitFolder(i)] + inner, [AfterVisitingFolder(i)], i, |h|);
    }
  }

  /** The callback is one the node's own `visit` method makes. */
  predicate Fits(h: seq<Node>, c: Callback) {
    && c.node < |h|
    && (c.BeforeVisitingFolder? || c.VisitFolder? || c.AfterVisitingFolder? ==> h[c.node].Folder?)
    && (c.VisitBookmark? ==> h[c.node].Bookmark?)
    && (c.VisitSeparator? ==> h[c.node].Separator?)
    && (c.VisitAlias? ==> h[c.node].Alias?)
  }

  ghost predicate AllFit(h: seq<Node>, t: seq<Callback>) {
    forall k :: 0 <= k < |t| ==> Fits(h, t[k])
  }

  /** Each callback of a traversal is made for a node of the matching kind. */
  lemma {:induction false} VisitKinds(h: seq<Node>, i: nat)
    requires WellFormed(h) && i < |h|
    ensures AllFit(h, Visit(h, i))
    decreases |h| - i, 1, 0
  {
    if h[i].Folder? {
      var inner := VisitChildren(h, h[i].children, i);
      VisitChildrenKinds(h, h[i].children, i);
      var t := [BeforeVisitingFolder(i), VisitFolder(i)] + inner + [AfterVisitingFolder(i)];
      assert Visit(h, i) == t;
      forall k | 0 <= k < |t| ensures Fits(h, t[k]) {
        if 2 <= k < |t| - 1 {
          assert t[k] == inner[k - 2];
        }
      }
    }
  }

  lemma {:induction false} VisitChildrenKinds(h: seq<Node>, cs: seq<nat>, parent: nat)
    requires WellFormed(h)
    requires Forward(cs, parent, |h|)
    ensures AllFit(h, VisitChildren(h, cs, parent))
    decreases |h| - parent, 0, |cs|
  {
    if cs != [] {
      VisitKinds(h, cs[0]);
      VisitChildrenKinds(h, cs[1..], parent);
      var a, b := Visit(h, cs[0]), VisitChildren(h, cs[1..], parent);
      assert VisitChildren(h, cs, parent) == a + b;
      forall k | 0 <= k < |a + b| ensures Fits(h, (a + b)[k]) {
        if k < |a| {
          assert (a + b)[k] == a[k];
        } else {
          assert (a + b)[k] == b[k - |a|];
        }
      }
    }
  }

  /** Every callback of `t` is about a node in `[lo, hi)`. */
  ghost predicate NodesIn(t: seq<Callback>, lo: nat, hi: nat) {
    forall k :: 0 <= k < |t| ==> lo <= t[k].node < hi
  }

  lemma NodesInConcat(a: seq<Callback>, b: seq<Callback>, lo: nat, hi: nat)
    requires NodesIn(a, lo, hi) && NodesIn(b, lo, hi)
    ensures NodesIn(a + b, lo, hi)
  {
    forall k | 0 <= k < |a + b| ensures lo <= (a + b)[k].node < hi {
      if k >= |a| {
        assert (a + b)[k] == b[k - |a|];
      }
    }
  }

  lemma {:induction false} VisitChildrenAbove(h: seq<Node>, cs: seq<nat>, parent: nat)
    requires WellFormed(h)
    requires Forward(cs, parent, |h|)
    ensures NodesIn(VisitChildren(h, cs, parent), parent + 1, |h|)
    decreases |h| - parent, 0, |cs|
  {
    if cs != [] {
      VisitOrder(h, cs[0]);
      VisitChildrenAbove(h, cs[1..], parent);
      NodesInConcat(Visit(h, cs[0]), VisitChildren(h, cs[1..], parent), parent + 1, |h|);
    }
  }

  /** No callback occurs twice in a trace. */
  ghost predicate Distinct(t: seq<Callback>) {
    forall j1, j2 :: 0 <= j1 < j2 < |t| ==> t[j1] != t[j2]
  }

  lemma DistinctConcat(a: seq<Callback>, b: seq<Callback>)
    requires Distinct(a) && Distinct(b)
    requires forall j1, j2 :: 0 <= j1 < |a| && 0 <= j2 < |b| ==> a[j1].node != b[j2].node
    ensures Distinct(a + b)
  {
  }

  /** `x` lies in the subtree of one of the nodes `cs`. */
  ghost predicate UnderOneOf(p: seq<int>, cs: seq<nat>, x: nat) {
    exists c :: c in cs && Descends(p, c, x)
  }

  /**
   * In a forest (every node has one parent, no child list repeats an index) a traversal calls
   * the visitor at most once per callback kind and node: each folder gets one before, one
   * visit and one after, and each bookmark, separator and alias one call, however many aliases
   * point at it. Every node named is in the subtree.
   */
  lemma {:induction false} VisitDistinct(h: seq<Node>, p: seq<int>, i: nat)
    requires WellFormed(h) && Parents(h, p) && i < |h|
    ensures Distinct(Visit(h, i))
    ensures forall k :: 0 <= k < |Visit(h, i)| ==> Descends(p, i, Visit(h, i)[k].node)
    decreases |h| - i, 1, 0
  {
    if h[i].Folder? {
      var cs := h[i].children;
      ChildrenOfParent(h, p, i);
      var inner := VisitChildren(h, cs, i);
      VisitChildrenDistinct(h, p, cs, i);
      InnerDescends(h, p, i, inner);
      FolderTraceDistinct(p, i, inner);
    }
  }

  lemma FolderTraceDistinct(p: seq<int>, i: nat, inner: seq<Callback>)
    requires Distinct(inner)
    requires forall k :: 0 <= k < |inner| ==> i < inner[k].node && Descends(p, i, inner[k].node)
    ensures var t := [BeforeVisitingFolder(i), VisitFolder(i)] + inner + [AfterVisitingFolder(i)];
      Distinct(t) && forall k :: 0 <= k < |t| ==> Descends(p, i, t[k].node)
  {
    var t := [BeforeVisitingFolder(i), VisitFolder(i)] + inner + [AfterVisitingFolder(i)];
    forall j1, j2 | 0 <= j1 < j2 < |t| ensures t[j1] != t[j2] {
      if 2 <= j1 < |t| - 1 {
        assert t[j1] == inner[j1 - 2];
      }
      if 2 <= j2 < |t| - 1 {
        assert t[j2] == inner[j2 - 2];
      }
    }
    forall k | 0 <= k < |t| ensures Descends(p, i, t[k].node) {
      if 2 <= k < |t| - 1 {
        assert t[k] == inner[k - 2];
      }
    }
  }

  /** What `Parents` says about the child list of one folder. */
  lemma ChildrenOfParent(h: seq<Node>, p: seq<int>, i: nat)
    requires WellFormed(h) && Parents(h, p) && i < |h|
    ensures Forward(h[i].Children(), i, |h|)
    ensures forall k :: 0 <= k < |h[i].Children()| ==> p[h[i].Children()[k]] == i
    ensures forall k1, k2 :: 0 <= k1 < k2 < |h[i].Children()| ==> h[i].Children()[k1] != h[i].Children()[k2]
  {
  }

  lemma InnerDescends(h: seq<Node>, p: seq<int>, i: nat, inner: seq<Callback>)
    requires WellFormed(h) && Parents(h, p) && i < |h| && h[i].Folder?
    requires forall k :: 0 <= k < |inner| ==> UnderOneOf(p, h[i].children, inner[k].node)
    ensures forall k :: 0 <= k < |inner| ==> i < inner[k].node && Descends(p, i, inner[k].node)
  {
    ChildrenOfParent(h, p, i);
    forall k | 0 <= k < |inner| ensures i < inner[k].node && Descends(p, i, inner[k].node) {
      assert UnderOneOf(p, h[i].children, inner[k].node);
      var c :| c in h[i].children && Descends(p, c, inner[k].node);
      DescendsAbove(p, c, inner[k].node);
      DescendsThroughChild(p, i, c, inner[k].node);
    }
  }

  lemma {:induction false} VisitChildrenDistinct(h: seq<Node>, p: seq<int>, cs: seq<nat>, parent: nat)
    requires WellFormed(h) && Parents(h, p)
    requires Forward(cs, parent, |h|)
    requires forall k :: 0 <= k < |cs| ==> p[cs[k]] == parent
    requires forall k1, k2 :: 0 <= k1 < k2 < |cs| ==> cs[k1] != cs[k2]
    ensures Distinct(VisitChildren(h, cs, parent))
    ensures forall k :: 0 <= k < |VisitChildren(h, cs, parent)| ==>
      UnderOneOf(p, cs, VisitChildren(h, cs, parent)[k].node)
    decreases |h| - parent, 0, |cs|
  {
    if cs != [] {
      var first := Visit(h, cs[0]);
      var tail := VisitChildren(h, cs[1..], parent);
      VisitDistinct(h, p, cs[0]);
      VisitChildrenDistinct(h, p, cs[1..], parent);
      forall j1, j2 | 0 <= j1 < |first| && 0 <= j2 < |tail|
        ensures first[j1].node != tail[j2].node
      {
        assert UnderOneOf(p, cs[1..], tail[j2].node);
        var c :| c in cs[1..] && Descends(p, c, tail[j2].node);
        if first[j1].node == tail[j2].node {
          SiblingsDisjoint(p, cs[0], c, first[j1].node);
        }
      }
      DistinctConcat(first, tail);
      var all := first + tail;
      assert all == VisitChildren(h, cs, parent);
      forall k | 0 <= k < |all| ensures UnderOneOf(p, cs, all[k].node) {
        if k < |first| {
          assert all[k] == first[k];
          assert Descends(p, cs[0], all[k].node);
        } else {
          assert all[k] == tail[k - |first|];
          assert UnderOneOf(p, cs[1..], tail[k - |first|].node);
          var c :| c in cs[1..] && Descends(p, c, tail[k - |first|].node);
          assert c in cs;
        }
      }
    }
  }
}
