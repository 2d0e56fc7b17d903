/**
 * XBEL\Parser and XBEL\AliasResolver as classes that update the shared object store in place
 * (lib/XBEL/Parser.php). Each callback is proved to perform exactly the step of the pure
 * state machine in builder.dfy, whose invariant it therefore keeps.
 */
module XbelParser {
  import opened XbelNodes
  import opened Traversal
  import opened Builder

  /**
   * Replaces the target of each alias it visits by the node the ID map gives for it
   * (lib/XBEL/Parser.php:261-285); every other callback is the inherited no-op.
   */
  class AliasResolver {
    const heap: Heap
    const idmap: map<string, nat>

    constructor (heap: Heap, idmap: map<string, nat>)
      ensures this.heap == heap && this.idmap == idmap
    {
      this.heap := heap;
      this.idmap := idmap;
    }

    /** `visitAlias($alias)`: `$alias->target = $this->idmap[$alias->target]`. */
    method VisitAlias(i: nat)
      requires i < |heap.nodes| && heap.nodes[i].Alias?
      modifies heap
      ensures heap.nodes == old(heap.nodes)[i := Alias(NodeRef(Lookup(idmap, old(heap.nodes)[i].target)))]
    {
      heap.nodes := heap.nodes[i := Alias(NodeRef(Lookup(idmap, heap.nodes[i].target)))];
    }

    /** One callback of a traversal: only visitAlias does anything. */
    method Dispatch(c: Callback)
      requires c.node < |heap.nodes|
      requires c.VisitAlias? ==> heap.nodes[c.node].Alias?
      modifies heap
      ensures c.VisitAlias? ==>
        heap.nodes == old(heap.nodes)[c.node := Alias(NodeRef(Lookup(idmap, old(heap.nodes)[c.node].target)))]
      ensures !c.VisitAlias? ==> heap.nodes == old(heap.nodes)
    {
      if c.VisitAlias? {
        VisitAlias(c.node);
      }
    }

    /**
     * `$root->visit($this)`: the callbacks of the traversal, in order. Each alias is visited
     * once (the traversal of a tree never repeats a node), so each is looked up with the ID
     * text it was parsed with.
     */
    method Run(root: nat, ghost p: seq<int>)
      requires WellFormed(heap.nodes) && Parents(heap.nodes, p) && root < |heap.nodes|
      modifies heap
      ensures heap.nodes == ResolveAliases(old(heap.nodes), idmap, Visit(old(heap.nodes), root))
    {
      ghost var h0 := heap.nodes;
      var trace := Visit(heap.nodes, root);
      VisitOrder(h0, root);
      for j := 0 to |trace|
        invariant heap.nodes == ResolveAliases(h0, idmap, trace[..j])
      {
        var c := trace[j];
        TraceStep(h0, p, root, j);
        ResolveSnoc(h0, idmap, trace[..j], c);
        Dispatch(c);
        assert trace[..j + 1] == trace[..j] + [c];
      }
      assert trace[..|trace|] == trace;
    }
  }

  /** One more callback resolves at most the one alias it names, if not resolved before. */
  lemma ResolveSnoc(h: seq<Node>, idmap: map<string, nat>, t: seq<Callback>, c: Callback)
    requires c.VisitAlias? ==> c.node < |h| && h[c.node].Alias? && c !in t
    ensures c.VisitAlias? ==>
      ResolveAliases(h, idmap, t + [c]) ==
        ResolveAliases(h, idmap, t)[c.node := Alias(NodeRef(Lookup(idmap, ResolveAliases(h, idmap, t)[c.node].target)))]
    ensures !c.VisitAlias? ==> ResolveAliases(h, idmap, t + [c]) == ResolveAliases(h, idmap, t)
  {
    assert forall i :: VisitAlias(i) in t + [c] <==> VisitAlias(i) in t || VisitAlias(i) == c;
  }

  /**
   * The `j`-th callback of a traversal names a node of the arena; a VisitAlias callback is
   * made only for an alias, and not earlier in the trace.
   */
  lemma TraceStep(h: seq<Node>, p: seq<int>, root: nat, j: nat)
    requires WellFormed(h) && Parents(h, p) && root < |h| && j < |Visit(h, root)|
    ensures var c := Visit(h, root)[j];
      && c.node < |h|
      && (c.VisitAlias? ==> h[c.node].Alias? && c !in Visit(h, root)[..j])
  {
    var trace := Visit(h, root);
    VisitKinds(h, root);
    VisitDistinct(h, p, root);
    assert Fits(h, trace[j]);
    assert forall k | 0 <= k < j :: trace[..j][k] == trace[k] != trace[j];
  }

  /** XBEL\Parser: the SAX callbacks build the node tree in the shared store. */
  class Parser {
    const heap: Heap
    var elementStack: seq<nat>
    var currentElement: Str
    var idmap: map<string, nat>
    /** The names of the elements opened and not yet closed. */
    ghost var open: seq<string>
    /** The parent of every node of the store, -1 for the root. */
    ghost var parents: seq<int>

    /** The fields as a state of the state machine. */
    function Snapshot(): State
      reads this, heap
    {
      State(heap.nodes, elementStack, currentElement, idmap)
    }

    ghost predicate Valid()
      reads this, heap
    {
      Inv(Snapshot(), open, parents)
    }

    /** `new Parser()`: the stack holds a fresh root Folder (lib/XBEL/Parser.php:69-73). */
    constructor ()
      ensures Valid() && Snapshot() == Init && open == [] && parents == [-1] && fresh(heap)
    {
      var store := new Heap();
      var root := store.Allocate(NewFolder());
      heap := store;
      elementStack := [root];
      currentElement := None;
      idmap := map[];
      open := [];
      parents := [-1];
      new;
      InitInv();
    }

    /** `currentElement()`: the top of the stack (lib/XBEL/Parser.php:246-249). */
    function CurrentElement(): (top: nat)
      reads this, heap
      requires Sane(Snapshot())
      ensures top == Top(Snapshot())
    {
      elementStack[|elementStack| - 1]
    }

    /** `getRoot()`: the bottom of the stack, the root Folder (lib/XBEL/Parser.php:92-95). */
    function GetRoot(): (root: nat)
      reads this, heap
      requires Valid()
      ensures root == 0 && root < |heap.nodes| && heap.nodes[root].Folder?
    {
      elementStack[0]
    }

    /** `$this->currentElement()->children[] = $node` for the node already at `idx`. */
    method AppendToCurrent(idx: nat)
      requires Sane(Snapshot()) && idx == |heap.nodes| - 1 && CurrentElement() < idx
      modifies heap
      ensures heap.nodes == Attach(old(heap.nodes)[..idx], old(CurrentElement()), old(heap.nodes)[idx])
    {
      var t := CurrentElement();
      heap.nodes := heap.nodes[t := AddChild(heap.nodes[t], idx)];
      assert heap.nodes == (old(heap.nodes)[..idx] + [old(heap.nodes)[idx]])[t := AddChild(old(heap.nodes)[t], idx)];
    }

    /** `applyNodeAttributes($node, $attrs)` (lib/XBEL/Parser.php:164-178). */
    method ApplyNodeAttributesTo(idx: nat, attrs: Attrs)
      requires idx < |heap.nodes| && heap.nodes[idx].IsNamed()
      modifies this, heap
      ensures heap.nodes == old(heap.nodes)[idx := ApplyNodeAttributes(old(heap.nodes)[idx], attrs)]
      ensures idmap == RecordId(old(idmap), idx, attrs)
      ensures elementStack == old(elementStack) && currentElement == old(currentElement)
      ensures open == old(open) && parents == old(parents)
    {
      var n := heap.nodes[idx];
      if "ID" in attrs {
        n := n.(named := n.named.(id := Some(attrs["ID"])));
        idmap := idmap[attrs["ID"] := idx];
      }
      if "ADDED" in attrs {
        n := n.(named := n.named.(added := Some(attrs["ADDED"])));
      }
      heap.nodes := heap.nodes[idx := n];
    }

    /** `pushAndApplyNode($node, $attrs)` and `pushNode` (lib/XBEL/Parser.php:184-188, 217-221). */
    method PushAndApplyNode(n: Node, attrs: Attrs)
      requires Sane(Snapshot()) && n.IsNamed()
      modifies this, heap
      ensures Snapshot() == Builder.PushAndApplyNode(old(Snapshot()), n, attrs)
      ensures open == old(open) && parents == old(parents)
    {
      ghost var s0 := Snapshot();
      var idx := heap.Allocate(n);
      ApplyNodeAttributesTo(idx, attrs);
      assert heap.nodes[..idx] == s0.heap;
      SaneGrow(s0, Snapshot());
      AppendToCurrent(idx);
      elementStack := elementStack + [idx];
    }

    /** `folder($attrs)` (lib/XBEL/Parser.php:140-145). */
    method FolderElement(attrs: Attrs)
      requires Sane(Snapshot())
      modifies this, heap
      ensures Snapshot() == Builder.PushAndApplyNode(old(Snapshot()), FolderNode(attrs), attrs)
      ensures open == old(open) && parents == old(parents)
    {
      var folder := NewFolder();
      folder := folder.(folded := "FOLDED" in attrs && attrs["FOLDED"] == "true");
      PushAndApplyNode(folder, attrs);
    }

    /** `bookmark($href, $attrs)` (lib/XBEL/Parser.php:150-159). */
    method BookmarkElement(href: Str, attrs: Attrs)
      requires Sane(Snapshot())
      modifies this, heap
      ensures Snapshot() == Builder.PushAndApplyNode(old(Snapshot()), BookmarkNode(href, attrs), attrs)
      ensures open == old(open) && parents == old(parents)
    {
      var bookmark := NewBookmark(href);
      if "VISITED" in attrs {
        bookmark := bookmark.(visited := Some(attrs["VISITED"]));
      }
      if "MODIFIED" in attrs {
        bookmark := bookmark.(modified := Some(attrs["MODIFIED"]));
      }
      PushAndApplyNode(bookmark, attrs);
    }

    /** `separator()` and `alias($ref)`: a new leaf under the top (lib/XBEL/Parser.php:193-207). */
    method LeafElement(n: Node)
      requires Sane(Snapshot())
      modifies heap
      ensures heap.nodes == Attach(old(heap.nodes), old(CurrentElement()), n)
    {
      var idx := heap.Allocate(n);
      AppendToCurrent(idx);
    }

    /** `startElement($elementName, $attrs)` (lib/XBEL/Parser.php:98-122). */
    method StartElement(name: string, attrs: Attrs)
      requires Valid()
      modifies this, heap
      ensures Snapshot() == Start(old(Snapshot()), name, attrs)
      ensures open == old(open) + [name] && parents == StartParents(old(Snapshot()), old(parents), name)
      ensures Valid()
    {
      ghost var s, o, p := Snapshot(), open, parents;
      parents := StartParents(s, p, name);
      open := o + [name];
      SwitchOnName(name, attrs);
      StartInv(s, o, p, name, attrs);
    }

    /** The body of startElement: record the element's name and hand it to its builder method. */
    method SwitchOnName(name: string, attrs: Attrs)
      requires Sane(Snapshot())
      modifies this, heap
      ensures Snapshot() == Start(old(Snapshot()), name, attrs)
      ensures open == old(open) && parents == old(parents)
    {
      currentElement := Some(name);
      if name == "FOLDER" {
        FolderElement(attrs);
      } else if name == "BOOKMARK" {
        BookmarkElement(Attr(attrs, "HREF"), attrs);
      } else if name == "SEPARATOR" {
        LeafElement(Separator);
      } else if name == "ALIAS" {
        LeafElement(NewAlias(Attr(attrs, "REF")));
      }
    }

    /** `characterData($data)` (lib/XBEL/Parser.php:224-230). */
    method CharacterData(data: string)
      requires Valid()
      modifies heap
      ensures Snapshot() == Characters(old(Snapshot()), data)
      ensures Valid()
    {
      CharactersInv(Snapshot(), open, parents, data);
      var t := CurrentElement();
      var n := heap.nodes[t];
      if currentElement == Some("TITLE") {
        heap.nodes := heap.nodes[t := n.(named := n.named.(title := Some(Trim(OrEmpty(n.named.title) + data))))];
      } else if currentElement == Some("DESC") {
        heap.nodes := heap.nodes[t := n.(named := n.named.(description := Some(Trim(OrEmpty(n.named.description) + data))))];
      }
    }

    /**
     * `endElement($elementName)` (lib/XBEL/Parser.php:233-237), for the end tag of the
     * innermost open element, as expat reports it for a well-formed document.
     */
    method EndElement(name: string)
      requires Valid() && |open| > 0 && open[|open| - 1] == name
      modifies this
      ensures Snapshot() == End(old(Snapshot()), name)
      ensures open == old(open)[..|old(open)| - 1] && parents == old(parents) && Valid()
    {
      EndInv(Snapshot(), open, parents, name);
      open := open[..|open| - 1];
      if name == "FOLDER" || name == "BOOKMARK" {
        elementStack := elementStack[..|elementStack| - 1];
      }
    }

    /** `endDocument()`: resolve the aliases under the root (lib/XBEL/Parser.php:131-135). */
    method EndDocument()
      requires Valid()
      modifies heap
      ensures Snapshot() == Resolve(old(Snapshot()))
      ensures Valid()
    {
      ResolveInv(Snapshot(), open, parents);
      var resolver := new AliasResolver(heap, idmap);
      resolver.Run(GetRoot(), parents);
    }

    /** One SAX callback. */
    method Handle(e: Event)
      requires Valid() && Next(open, e).Some?
      modifies this, heap
      ensures Valid() && open == Next(old(open), e).value
      ensures e.StartElement? ==> Snapshot() == Start(old(Snapshot()), e.name, e.attrs)
      ensures e.CharacterData? ==> Snapshot() == Characters(old(Snapshot()), e.data)
      ensures e.EndElement? ==> Snapshot() == End(old(Snapshot()), e.name)
      ensures e.EndDocument? ==> Snapshot() == Resolve(old(Snapshot()))
      ensures !e.StartElement? ==> parents == old(parents)
      ensures e.StartElement? ==> parents == StartParents(old(Snapshot()), old(parents), e.name)
    {
      match e
      case StartElement(n, a) => StartElement(n, a);
      case CharacterData(d) => CharacterData(d);
      case EndElement(n) => EndElement(n);
      case EndDocument => EndDocument();
    }
  }

  /**
   * `Parser::parseXBEL($filename)` (lib/XBEL/Parser.php:81-86): a new parser is fed the
   * callbacks expat makes for the file, and the root is returned. The file's events stand
   * for the read and the expat run; `parse` never calls endDocument, so the stream holds no
   * EndDocument and the returned tree's aliases still hold their REF strings.
   */
  method ParseXbel(events: seq<Event>) returns (parser: Parser, root: nat)
    requires Open(events).Some? && EndDocument !in events
    ensures root == 0 && parser.Snapshot() == Feed(events).state
    ensures root < |parser.heap.nodes| && parser.heap.nodes[root].Folder?
    ensures Unresolved(parser.heap.nodes)
  {
    parser := new Parser();
    assert events[..0] == [];
    for j := 0 to |events|
      invariant parser.Valid()
      invariant Open(events[..j]).Some?
      invariant parser.Snapshot() == Feed(events[..j]).state
      invariant parser.open == Feed(events[..j]).open && parser.parents == Feed(events[..j]).parents
    {
      PrefixOpen(events, j + 1);
      FeedSnoc(events, j);
      parser.Handle(events[j]);
    }
    assert events[..|events|] == events;
    root := parser.GetRoot();
    FeedUnresolved(events);
  }

  /** The run after one more event of the stream is one Step further. */
  lemma FeedSnoc(events: seq<Event>, j: nat)
    requires j < |events| && Open(events[..j + 1]).Some?
    ensures Open(events[..j]).Some? && Next(Feed(events[..j]).open, events[j]).Some?
    ensures Feed(events[..j + 1]) == Step(Feed(events[..j]), events[j])
  {
    var prefix := events[..j + 1];
    assert prefix[..|prefix| - 1] == events[..j] && prefix[|prefix| - 1] == events[j];
  }

  /** Every prefix of a well-nested stream is well nested. */
  lemma {:induction false} PrefixOpen(events: seq<Event>, n: nat)
    requires Open(events).Some? && n <= |events|
    ensures Open(events[..n]).Some?
    decreases |events|
  {
    if n < |events| {
      var shorter := events[..|events| - 1];
      assert Open(shorter).Some?;
      assert shorter[..n] == events[..n];
      PrefixOpen(shorter, n);
    } else {
      assert events[..n] == events;
    }
  }
}
