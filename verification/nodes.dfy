/**
 * The XBEL node types (lib/XBEL/Node.php, NamedNode.php, Folder.php, Bookmark.php,
 * Separator.php, Alias.php) and the object store they live in.
 *
 * PHP objects are shared by reference between the tree, the parser's stack and its ID map.
 * The model keeps every node in one arena, a `seq<Node>`, and refers to a node by its index
 * there; two references to the same object are the same index.
 */
module XbelNodes {

  datatype Option<T> = None | Some(value: T)

  /** A PHP value that is either a string or null. */
  type Str = Option<string>

  /** PHP's `$s != null` for a string: set, and not the empty string. */
  predicate Present(s: Str) {
    s.Some? && s.value != ""
  }

  /** The string a PHP string-or-null turns into when concatenated (null reads as ""). */
  function OrEmpty(s: Str): string {
    if s.Some? then s.value else ""
  }

  /** The fields a NamedNode (Folder or Bookmark) inherits; PHP leaves all of them null. */
  datatype Named = Named(title: Str, description: Str, id: Str, added: Str)

  const Unnamed: Named := Named(None, None, None, None)

  /**
   * What an Alias points at: the ID string given by its REF attribute until the resolver
   * runs, then the node found for it (None where PHP stores null).
   */
  datatype Target = IdRef(ref: Str) | NodeRef(node: Option<nat>)

  /**
   * One object of the arena. `children` on a Bookmark is the property PHP creates on the fly
   * when a child is appended while a bookmark is the top of the parser's stack; Bookmark::visit
   * never looks at it. `Null` is a PHP null stored where a node is expected.
   */
  datatype Node =
    | Folder(named: Named, folded: bool, children: seq<nat>)
    | Bookmark(named: Named, href: Str, visited: Str, modified: Str, children: seq<nat>)
    | Separator
    | Alias(target: Target)
    | Null
  {
    /** Folder and Bookmark extend NamedNode; Separator and Alias do not. */
    predicate IsNamed() {
      Folder? || Bookmark?
    }

    /** The child list the node carries, empty for the kinds that have none. */
    function Children(): seq<nat> {
      if IsNamed() then children else []
    }
  }

  /** `new Folder()`: no children and not folded (lib/XBEL/Folder.php:17-23). */
  function NewFolder(): (n: Node)
    ensures n.Folder? && n.named == Unnamed && n.Children() == [] && !n.folded
  {
    Folder(Unnamed, false, [])
  }

  /** `new Bookmark($href)`: only href is set (lib/XBEL/Bookmark.php:17-39). */
  function NewBookmark(href: Str): (n: Node)
    ensures n.Bookmark? && n.href == href && n.named == Unnamed
    ensures n.visited == None && n.modified == None && n.Children() == []
  {
    Bookmark(Unnamed, href, None, None, [])
  }

  /** `new Alias($target)`: the target is stored as given (lib/XBEL/Alias.php:17-20). */
  function NewAlias(ref: Str): (n: Node)
    ensures n.Alias? && n.target == IdRef(ref) && !n.IsNamed() && n.Children() == []
  {
    Alias(IdRef(ref))
  }

  /** Every index in `cs` lies strictly between `parent` and `bound`. */
  predicate Forward(cs: seq<nat>, parent: nat, bound: nat) {
    forall k :: 0 <= k < |cs| ==> parent < cs[k] < bound
  }

  /** Every child index points forward, to a node created later. */
  ghost predicate TreeShaped(h: seq<Node>) {
    forall i :: 0 <= i < |h| ==> Forward(h[i].Children(), i, |h|)
  }

  /** No PHP null sits in the arena. */
  ghost predicate NoNull(h: seq<Node>) {
    forall i :: 0 <= i < |h| ==> !h[i].Null?
  }

  /** What a traversal needs: forward children and no null to call `visit` on. */
  ghost predicate WellFormed(h: seq<Node>) {
    TreeShaped(h) && NoNull(h)
  }

  /**
   * `p` gives every node its unique parent (-1 for a node nobody owns) and no child list holds
   * an index twice: the arena is a forest, not a graph.
   */
  ghost predicate Parents(h: seq<Node>, p: seq<int>) {
    && |p| == |h|
    && (forall i, k :: 0 <= i < |h| && 0 <= k < |h[i].Children()| && h[i].Children()[k] < |p| ==>
          p[h[i].Children()[k]] == i)
    && (forall i, k1, k2 :: 0 <= i < |h| && 0 <= k1 < k2 < |h[i].Children()| ==>
          h[i].Children()[k1] != h[i].Children()[k2])
  }

  /** `a` is `x` or an ancestor of `x` along the parent links `p`. */
  ghost predicate Descends(p: seq<int>, a: nat, x: nat)
    decreases x
  {
    x == a || (a < x < |p| && 0 <= p[x] < x && Descends(p, a, p[x] as nat))
  }

  lemma {:induction false} DescendsAbove(p: seq<int>, a: nat, x: nat)
    requires Descends(p, a, x)
    ensures a <= x
    decreases x
  {
    if x != a {
      DescendsAbove(p, a, p[x] as nat);
    }
  }

  /** A descendant of a child `c` of `a` is a descendant of `a`. */
  lemma {:induction false} DescendsThroughChild(p: seq<int>, a: nat, c: nat, x: nat)
    requires a < c < |p| && p[c] == a
    requires Descends(p, c, x)
    ensures Descends(p, a, x)
    decreases x
  {
    if x == c {
      assert Descends(p, a, a);
    } else {
      DescendsThroughChild(p, a, c, p[x] as nat);
    }
  }

  /** Two ancestors of the same node are themselves related. */
  lemma {:induction false} DescendsChain(p: seq<int>, a: nat, b: nat, x: nat)
    requires Descends(p, a, x) && Descends(p, b, x) && a <= b
    ensures Descends(p, a, b)
    decreases x
  {
    if x != b {
      DescendsAbove(p, b, p[x] as nat);
      DescendsChain(p, a, b, p[x] as nat);
    }
  }

  lemma OrderedSiblingsDisjoint(p: seq<int>, c1: nat, c2: nat, x: nat)
    requires c1 < c2 < |p| && p[c1] == p[c2] && 0 <= p[c1] < c1
    ensures !(Descends(p, c1, x) && Descends(p, c2, x))
  {
    if Descends(p, c1, x) && Descends(p, c2, x) {
      DescendsChain(p, c1, c2, x);
      DescendsAbove(p, c1, p[c2] as nat);
    }
  }

  /** Subtrees of two different children of the same parent are disjoint. */
  lemma SiblingsDisjoint(p: seq<int>, c1: nat, c2: nat, x: nat)
    requires c1 != c2 && c1 < |p| && c2 < |p| && p[c1] == p[c2] && 0 <= p[c1] < c1 && 0 <= p[c2] < c2
    ensures !(Descends(p, c1, x) && Descends(p, c2, x))
  {
    if c1 < c2 {
      OrderedSiblingsDisjoint(p, c1, c2, x);
    } else {
      OrderedSiblingsDisjoint(p, c2, c1, x);
    }
  }

  /**
   * The PHP object store: every node the program creates is allocated here, and the
   * parser, the resolver and the visitors read or update it in place.
   */
  class Heap {
    var nodes: seq<Node>

    constructor ()
      ensures nodes == []
    {
      nodes := [];
    }

    /** `new X()`: the node gets the next free index. */
    method Allocate(n: Node) returns (idx: nat)
      modifies this
      ensures idx == |old(nodes)| && nodes == old(nodes) + [n]
    {
      idx := |nodes|;
      nodes := nodes + [n];
    }
  }
}
