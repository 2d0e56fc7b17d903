/**
 * The state machine of XBEL\Parser (lib/XBEL/Parser.php:38-250) and of the AliasResolver pass
 * (lib/XBEL/Parser.php:261-285), as functions from the parser's state and one SAX event to the
 * next state. The class in parser.dfy runs the same steps in place.
 *
 * Element and attribute names arrive upper-cased: the expat handle is created with its
 * default case folding (lib/SAX/Parser.php:45).
 */
module Builder {
  import opened XbelNodes
  import opened Traversal

  /** The attribute array expat hands to a start-element callback. */
  type Attrs = map<string, string>

  /** `$attrs['KEY']`: null (with a PHP notice) when the key is absent. */
  function Attr(attrs: Attrs, key: string): (v: Str)
    ensures v.Some? <==> key in attrs
    ensures v.Some? ==> v.value == attrs[key]
  {
    if key in attrs then Some(attrs[key]) else None
  }

  /** The callbacks the SAX layer drives. */
  datatype Event =
    | StartElement(name: string, attrs: Attrs)
    | CharacterData(data: string)
    | EndElement(name: string)
    | EndDocument

  /**
   * The fields of a Parser: the arena holding every node created so far, `elementStack`,
   * `currentElement` (null until the first start tag) and `idmap`.
   */
  datatype State = State(heap: seq<Node>, stack: seq<nat>, current: Str, idmap: map<string, nat>)

  /** `new Parser()`: one fresh root Folder, which is the whole stack (lib/XBEL/Parser.php:69-73). */
  const Init: State := State([NewFolder()], [0], None, map[])

  /** The stack is never empty and holds only folders and bookmarks of the arena. */
  ghost predicate Sane(s: State) {
    && |s.stack| >= 1
    && forall k :: 0 <= k < |s.stack| ==> s.stack[k] < |s.heap| && s.heap[s.stack[k]].IsNamed()
  }

  /** `currentElement()`: the last element of the stack (lib/XBEL/Parser.php:246-249). */
  function Top(s: State): (top: nat)
    requires Sane(s)
    ensures top == s.stack[|s.stack| - 1]
    ensures top < |s.heap| && s.heap[top].IsNamed()
    ensures top in s.stack
  {
    s.stack[|s.stack| - 1]
  }

  /** Adding nodes past the end of the arena keeps the stack valid and its top in place. */
  lemma SaneGrow(s: State, s': State)
    requires Sane(s) && s'.stack == s.stack && |s.heap| <= |s'.heap| && s'.heap[..|s.heap|] == s.heap
    ensures Sane(s') && Top(s') == Top(s)
  {
    forall k | 0 <= k < |s.stack| ensures s'.heap[s.stack[k]] == s.heap[s.stack[k]] {
      assert s'.heap[..|s.heap|][s.stack[k]] == s'.heap[s.stack[k]];
    }
  }

  /** The elements whose end tag pops the stack (lib/XBEL/Parser.php:235). */
  predicate Pops(name: string) {
    name == "FOLDER" || name == "BOOKMARK"
  }

  function AddChild(n: Node, c: nat): (r: Node)
    requires n.IsNamed()
    ensures r.IsNamed() && r.Folder? == n.Folder? && r.named == n.named
    ensures r.Children() == n.Children() + [c]
    ensures r.(children := n.children) == n
  {
    n.(children := n.children + [c])
  }

  /**
   * `$node = new X(); $this->currentElement()->children[] = $node`: the node is added to the
   * arena at index `|h|` and appended to the children of `t`.
   */
  function Attach(h: seq<Node>, t: nat, n: Node): (r: seq<Node>)
    requires t < |h| && h[t].IsNamed()
    ensures |r| == |h| + 1 && r[|h|] == n
    ensures r[t] == AddChild(h[t], |h|)
    ensures forall i :: 0 <= i < |h| && i != t ==> r[i] == h[i]
  {
    (h + [n])[t := AddChild(h[t], |h|)]
  }

  /** `applyNodeAttributes` on the node: copy ID and ADDED when present (lib/XBEL/Parser.php:164-178). */
  function ApplyNodeAttributes(n: Node, attrs: Attrs): (r: Node)
    requires n.IsNamed()
    ensures r.IsNamed() && r.Folder? == n.Folder? && r.Children() == n.Children()
    ensures r.named.id == (if "ID" in attrs then Some(attrs["ID"]) else n.named.id)
    ensures r.named.added == (if "ADDED" in attrs then Some(attrs["ADDED"]) else n.named.added)
    ensures r.named.title == n.named.title && r.named.description == n.named.description
    ensures r.(named := n.named) == n
  {
    var n1 := if "ID" in attrs then n.(named := n.named.(id := Some(attrs["ID"]))) else n;
    if "ADDED" in attrs then n1.(named := n1.named.(added := Some(attrs["ADDED"]))) else n1
  }

  /** `applyNodeAttributes` on the map: an ID maps to the node, replacing an earlier holder. */
  function RecordId(idmap: map<string, nat>, idx: nat, attrs: Attrs): (r: map<string, nat>)
    ensures "ID" in attrs ==> r == idmap[attrs["ID"] := idx]
    ensures "ID" !in attrs ==> r == idmap
  {
    if "ID" in attrs then idmap[attrs["ID"] := idx] else idmap
  }

  /**
   * `pushAndApplyNode($node, $attrs)` for a new node (lib/XBEL/Parser.php:184-188, 217-221):
   * apply the attributes, append the node to the top's children and push it.
   */
  function PushAndApplyNode(s: State, n: Node, attrs: Attrs): (r: State)
    requires Sane(s) && n.IsNamed()
    ensures Sane(r) && r.stack == s.stack + [|s.heap|] && r.current == s.current
    ensures r.heap == Attach(s.heap, Top(s), ApplyNodeAttributes(n, attrs))
    ensures r.idmap == RecordId(s.idmap, |s.heap|, attrs)
  {
    var r := s.(heap := Attach(s.heap, Top(s), ApplyNodeAttributes(n, attrs)),
                stack := s.stack + [|s.heap|],
                idmap := RecordId(s.idmap, |s.heap|, attrs));
    assert forall k :: 0 <= k < |s.stack| ==> r.heap[s.stack[k]].IsNamed();
    r
  }

  /** A Folder as `folder($attrs)` creates it: folded exactly when FOLDED is "true". */
  function FolderNode(attrs: Attrs): (n: Node)
    ensures n.Folder? && n.named == Unnamed && n.Children() == []
    ensures n.folded <==> "FOLDED" in attrs && attrs["FOLDED"] == "true"
  {
    var f := NewFolder();
    f.(folded := "FOLDED" in attrs && attrs["FOLDED"] == "true")
  }

  /** A Bookmark as `bookmark($href, $attrs)` creates it: VISITED and MODIFIED copied when present. */
  function BookmarkNode(href: Str, attrs: Attrs): (n: Node)
    ensures n.Bookmark? && n.named == Unnamed && n.Children() == [] && n.href == href
    ensures n.visited == Attr(attrs, "VISITED") && n.modified == Attr(attrs, "MODIFIED")
  {
    var b := NewBookmark(href);
    var b1 := if "VISITED" in attrs then b.(visited := Some(attrs["VISITED"])) else b;
    if "MODIFIED" in attrs then b1.(modified := Some(attrs["MODIFIED"])) else b1
  }

  /** `startElement($elementName, $attrs)` (lib/XBEL/Parser.php:98-122, 140-159, 193-207). */
  function Start(s: State, name: string, attrs: Attrs): (r: State)
    requires Sane(s)
    ensures Sane(r) && r.current == Some(name)
  {
    var s1 := s.(current := Some(name));
    if name == "FOLDER" then PushAndApplyNode(s1, FolderNode(attrs), attrs)
    else if name == "BOOKMARK" then PushAndApplyNode(s1, BookmarkNode(Attr(attrs, "HREF"), attrs), attrs)
    else if name == "SEPARATOR" then s1.(heap := Attach(s.heap, Top(s), Separator))
    else if name == "ALIAS" then s1.(heap := Attach(s.heap, Top(s), NewAlias(Attr(attrs, "REF"))))
    else s1
  }

  /**
   * What startElement does to the tree, the stack and the ID map. FOLDER and BOOKMARK attach
   * their new node, with its ID and ADDED applied, under the top and push it. SEPARATOR and
   * ALIAS attach their node without pushing it. Any other name leaves all three unchanged.
   */
  lemma StartEffect(s: State, name: string, attrs: Attrs)
    requires Sane(s)
    ensures var r := Start(s, name, attrs);
      && (Pops(name) ==> r.stack == s.stack + [|s.heap|] && r.idmap == RecordId(s.idmap, |s.heap|, attrs))
      && (!Pops(name) ==> r.stack == s.stack && r.idmap == s.idmap)
      && (name == "FOLDER" ==> r.heap == Attach(s.heap, Top(s), ApplyNodeAttributes(FolderNode(attrs), attrs)))
      && (name == "BOOKMARK" ==>
            r.heap == Attach(s.heap, Top(s), ApplyNodeAttributes(BookmarkNode(Attr(attrs, "HREF"), attrs), attrs)))
      && (name == "SEPARATOR" ==> r.heap == Attach(s.heap, Top(s), Separator))
      && (name == "ALIAS" ==> r.heap == Attach(s.heap, Top(s), NewAlias(Attr(attrs, "REF"))))
      && (name !in {"FOLDER", "BOOKMARK", "SEPARATOR", "ALIAS"} ==> r.heap == s.heap)
  {
    assert Top(s.(current := Some(name))) == Top(s);
  }

  /**
   * The node FOLDER or BOOKMARK pushes, as startElement and applyNodeAttributes leave it: no
   * title, description or children yet, ID and ADDED copied when given, a folder folded
   * exactly when FOLDED is "true", a bookmark with HREF, VISITED and MODIFIED copied.
   */
  lemma StartNewNode(s: State, name: string, attrs: Attrs)
    requires Sane(s) && Pops(name)
    ensures var r := Start(s, name, attrs);
      && |r.heap| == |s.heap| + 1 && r.stack[|r.stack| - 1] == |s.heap|
      && var n := r.heap[|s.heap|];
      && n.IsNamed() && n.Children() == [] && n.Folder? == (name == "FOLDER")
      && n.named == Named(None, None, Attr(attrs, "ID"), Attr(attrs, "ADDED"))
      && (n.Folder? ==> (n.folded <==> "FOLDED" in attrs && attrs["FOLDED"] == "true"))
      && (n.Bookmark? ==>
            n.href == Attr(attrs, "HREF") && n.visited == Attr(attrs, "VISITED") && n.modified == Attr(attrs, "MODIFIED"))
  {
  }

  /** The characters PHP's trim() removes: space, tab, newline, return, NUL, vertical tab. */
  predicate IsSpace(c: char) {
    c == ' ' || c == '\t' || c == '\n' || c == '\r' || c == '\0' || c == '\U{B}'
  }

  predicate AllSpace(s: string) {
    forall k :: 0 <= k < |s| ==> IsSpace(s[k])
  }

  /** `s` without its leading whitespace. */
  function TrimLeft(s: string): (r: string)
    ensures |r| <= |s| && r == s[|s| - |r|..]
    ensures AllSpace(s[..|s| - |r|])
    ensures r == [] || !IsSpace(r[0])
  {
    if s != [] && IsSpace(s[0]) then
      var r := TrimLeft(s[1..]);
      assert s[..|s| - |r|] == [s[0]] + s[1..][..|s[1..]| - |r|];
      r
    else s
  }

  /** `s` without its trailing whitespace. */
  function TrimRight(s: string): (r: string)
    ensures |r| <= |s| && r == s[..|r|]
    ensures AllSpace(s[|r|..])
    ensures r == [] || !IsSpace(r[|r| - 1])
    ensures s != [] && !IsSpace(s[0]) ==> r != []
  {
    if s != [] && IsSpace(s[|s| - 1]) then
      var r := TrimRight(s[..|s| - 1]);
      assert s[|r|..] == s[..|s| - 1][|r|..] + [s[|s| - 1]];
      r
    else s
  }

  /** `s` is whitespace, then `r` from index `lo`, then whitespace. */
  predicate Infix(s: string, lo: nat, r: string) {
    lo + |r| <= |s| && s[lo..lo + |r|] == r && AllSpace(s[..lo]) && AllSpace(s[lo + |r|..])
  }

  /**
   * PHP's trim(): the result is what is left of `s` once its leading and trailing
   * whitespace is cut off, and it neither starts nor ends with whitespace.
   */
  function Trim(s: string): (r: string)
    ensures Infix(s, |s| - |TrimLeft(s)|, r)
    ensures r == [] || (!IsSpace(r[0]) && !IsSpace(r[|r| - 1]))
  {
    var l := TrimLeft(s);
    TrimBothEnds(s, l, TrimRight(l));
    TrimRight(l)
  }

  lemma TrimBothEnds(s: string, l: string, r: string)
    requires |l| <= |s| && l == s[|s| - |l|..] && AllSpace(s[..|s| - |l|]) && (l == [] || !IsSpace(l[0]))
    requires |r| <= |l| && r == l[..|r|] && AllSpace(l[|r|..]) && (r == [] || !IsSpace(r[|r| - 1]))
    requires l != [] ==> r != []
    ensures Infix(s, |s| - |l|, r)
    ensures r == [] || (!IsSpace(r[0]) && !IsSpace(r[|r| - 1]))
  {
    var lo := |s| - |l|;
    assert s[lo..lo + |r|] == r;
    assert s[lo + |r|..] == l[|r|..];
  }

  /**
   * `characterData($data)` (lib/XBEL/Parser.php:224-230): inside TITLE or DESC, the text is
   * appended to the stack top's title or description and the whole is trimmed again.
   */
  function Characters(s: State, data: string): (r: State)
    requires Sane(s)
    ensures Sane(r) && r.stack == s.stack && r.current == s.current && r.idmap == s.idmap
  {
    var t := Top(s);
    var n := s.heap[t];
    if s.current == Some("TITLE") then
      var n' := n.(named := n.named.(title := Some(Trim(OrEmpty(n.named.title) + data))));
      SaneRewrite(s, n');
      s.(heap := s.heap[t := n'])
    else if s.current == Some("DESC") then
      var n' := n.(named := n.named.(description := Some(Trim(OrEmpty(n.named.description) + data))));
      SaneRewrite(s, n');
      s.(heap := s.heap[t := n'])
    else s
  }

  /** Replacing the stack top by another folder or bookmark keeps the stack valid. */
  lemma SaneRewrite(s: State, n: Node)
    requires Sane(s) && n.IsNamed()
    ensures Sane(s.(heap := s.heap[Top(s) := n]))
  {
  }

  /**
   * Character data changes one node, the stack top: inside TITLE (DESC) its title
   * (description) becomes the trim of the old text, null read as "", followed by the chunk.
   * Everything else about it stays; outside TITLE and DESC the state is unchanged.
   */
  lemma CharactersEffect(s: State, data: string)
    requires Sane(s)
    ensures var r := Characters(s, data);
      && |r.heap| == |s.heap| && forall i :: 0 <= i < |s.heap| && i != Top(s) ==> r.heap[i] == s.heap[i]
    ensures var n, n' := s.heap[Top(s)], Characters(s, data).heap[Top(s)];
      && n'.IsNamed() && n'.Folder? == n.Folder? && n'.Children() == n.Children() && n'.named.id == n.named.id
      && n'.named.title == (if s.current == Some("TITLE") then Some(Trim(OrEmpty(n.named.title) + data)) else n.named.title)
      && n'.named.description ==
           (if s.current == Some("DESC") then Some(Trim(OrEmpty(n.named.description) + data)) else n.named.description)
    ensures var n := s.heap[Top(s)];
      Characters(s, data).heap[Top(s)] ==
        if s.current == Some("TITLE") then n.(named := n.named.(title := Some(Trim(OrEmpty(n.named.title) + data))))
        else if s.current == Some("DESC") then
          n.(named := n.named.(description := Some(Trim(OrEmpty(n.named.description) + data))))
        else n
    ensures s.current != Some("TITLE") && s.current != Some("DESC") ==> Characters(s, data) == s
  {
  }

  /** `endElement($elementName)` (lib/XBEL/Parser.php:233-237). */
  function End(s: State, name: string): (r: State)
    requires Sane(s) && (Pops(name) ==> |s.stack| >= 2)
    ensures Sane(r) && r.heap == s.heap && r.current == s.current && r.idmap == s.idmap
    ensures r.stack == if Pops(name) then s.stack[..|s.stack| - 1] else s.stack
  {
    if Pops(name) then s.(stack := s.stack[..|s.stack| - 1]) else s
  }

  /**
   * The array key PHP uses for a target: a string is its own key and null is the key "".
   * A node object is an illegal offset, which has no key.
   */
  function KeyOf(t: Target): Option<string> {
    match t
    case IdRef(Some(key)) => Some(key)
    case IdRef(None) => Some("")
    case NodeRef(None) => Some("")
    case NodeRef(Some(_)) => None
  }

  /**
   * `$this->idmap[$alias->target]`: the target is looked up under its key. An alias a lookup
   * has already left null is looked up under "" again when a second endDocument runs. A
   * missing key, and a target that is already a node, read as null.
   */
  function Lookup(idmap: map<string, nat>, t: Target): (r: Option<nat>)
    ensures r == if KeyOf(t).Some? && KeyOf(t).value in idmap then Some(idmap[KeyOf(t).value]) else None
  {
    match t
    case IdRef(Some(key)) => if key in idmap then Some(idmap[key]) else None
    case IdRef(None) => if "" in idmap then Some(idmap[""]) else None
    case NodeRef(None) => if "" in idmap then Some(idmap[""]) else None
    case NodeRef(Some(_)) => None
  }

  /**
   * The arena after AliasResolver has been passed along `trace`: every alias the traversal
   * visits has its target replaced by the node the ID map gives for it (or null), and every
   * other node is left exactly as it was (lib/XBEL/Parser.php:281-284).
   */
  function ResolveAliases(h: seq<Node>, idmap: map<string, nat>, trace: seq<Callback>): (r: seq<Node>)
    ensures |r| == |h|
    ensures forall i :: 0 <= i < |h| ==> r[i].Alias? == h[i].Alias? && r[i].Children() == h[i].Children()
    ensures forall i :: 0 <= i < |h| && !(h[i].Alias? && VisitAlias(i) in trace) ==> r[i] == h[i]
    ensures forall i :: 0 <= i < |h| && h[i].Alias? && VisitAlias(i) in trace ==>
      r[i] == Alias(NodeRef(Lookup(idmap, h[i].target)))
  {
    seq(|h|, i requires 0 <= i < |h| =>
      if h[i].Alias? && VisitAlias(i) in trace then Alias(NodeRef(Lookup(idmap, h[i].target))) else h[i])
  }

  /** `endDocument()`: run the AliasResolver over the tree of the root (lib/XBEL/Parser.php:131-135). */
  function Resolve(s: State): (r: State)
    requires Sane(s) && WellFormed(s.heap)
    ensures Sane(r) && r.stack == s.stack && r.idmap == s.idmap && r.current == s.current
  {
    s.(heap := ResolveAliases(s.heap, s.idmap, Visit(s.heap, s.stack[0])))
  }


  // ---------------------------------------------------------------------------------------
  // The invariant of the parser over a well-nested event stream.

  /** The names of the open elements that pushed a node: the FOLDER and BOOKMARK ones. */
  function Pushed(open: seq<string>): (r: seq<string>)
    ensures |r| <= |open|
    ensures forall k :: 0 <= k < |r| ==> Pops(r[k])
  {
    if open == [] then []
    else Pushed(open[..|open| - 1]) + (if Pops(open[|open| - 1]) then [open[|open| - 1]] else [])
  }

  lemma PushedAppend(open: seq<string>, name: string)
    ensures Pushed(open + [name]) == Pushed(open) + (if Pops(name) then [name] else [])
  {
    assert (open + [name])[..|open + [name]| - 1] == open;
  }

  /** The element name of a pushed node. */
  function KindName(n: Node): string {
    if n.Folder? then "FOLDER" else "BOOKMARK"
  }

  /** The last entry of a node's child list. */
  function LastChild(n: Node): Option<nat> {
    if |n.Children()| > 0 then Some(n.Children()[|n.Children()| - 1]) else None
  }

  /** Stack entry `k + 1` is the last child of entry `k`, and a node of the `k`-th pushed kind. */
  ghost predicate LinkAt(h: seq<Node>, stack: seq<nat>, pushed: seq<string>, k: nat) {
    && k + 1 < |stack| && k < |pushed| && stack[k] < |h| && stack[k + 1] < |h|
    && LastChild(h[stack[k]]) == Some(stack[k + 1])
    && KindName(h[stack[k + 1]]) == pushed[k]
  }

  /**
   * The stack is the root followed by one node per open FOLDER/BOOKMARK element, in nesting
   * order, each the last child of the one below it.
   */
  ghost predicate StackInv(h: seq<Node>, stack: seq<nat>, open: seq<string>) {
    && |stack| >= 1 && stack[0] == 0
    && (forall k :: 0 <= k < |stack| ==> stack[k] < |h| && h[stack[k]].IsNamed())
    && |stack| == 1 + |Pushed(open)|
    && (forall k: nat :: k + 1 < |stack| ==> LinkAt(h, stack, Pushed(open), k))
    && (forall k1, k2 :: 0 <= k1 < k2 < |stack| ==> stack[k1] < stack[k2])
  }

  /** `idmap[key]` is the node most recently declared with ID `key`, and every declared ID is in it. */
  ghost predicate IdMapInv(h: seq<Node>, idmap: map<string, nat>) {
    && (forall key :: key in idmap ==>
          && idmap[key] < |h| && h[idmap[key]].IsNamed()
          && h[idmap[key]].named.id == Some(key))
    && (forall i :: 0 <= i < |h| && h[i].IsNamed() && h[i].named.id.Some? ==>
          h[i].named.id.value in idmap && i <= idmap[h[i].named.id.value])
  }

  /** The arena is a forest of forward links with the root Folder at index 0. */
  ghost predicate ShapeInv(h: seq<Node>, p: seq<int>) {
    |h| >= 1 && h[0].Folder? && WellFormed(h) && Parents(h, p)
  }

  ghost predicate Inv(s: State, open: seq<string>, p: seq<int>) {
    ShapeInv(s.heap, p) && StackInv(s.heap, s.stack, open) && IdMapInv(s.heap, s.idmap)
  }

  lemma InvSane(s: State, open: seq<string>, p: seq<int>)
    requires Inv(s, open, p)
    ensures Sane(s) && WellFormed(s.heap)
  {
  }

  lemma InitInv()
    ensures Inv(Init, [], [-1])
  {
  }

  // Shape.

  lemma AttachTreeShaped(h: seq<Node>, t: nat, n: Node)
    requires TreeShaped(h) && t < |h| && h[t].IsNamed() && n.Children() == []
    ensures TreeShaped(Attach(h, t, n))
  {
    var r := Attach(h, t, n);
    forall i | 0 <= i < |r| ensures Forward(r[i].Children(), i, |r|) {
      if i < |h| {
        assert Forward(h[i].Children(), i, |h|);
      }
    }
  }

  lemma AttachParents(h: seq<Node>, p: seq<int>, t: nat, n: Node)
    requires TreeShaped(h) && Parents(h, p) && t < |h| && h[t].IsNamed() && n.Children() == []
    ensures Parents(Attach(h, t, n), p + [t as int])
  {
    var r := Attach(h, t, n);
    var p' := p + [t as int];
    forall i, k | 0 <= i < |r| && 0 <= k < |r[i].Children()| && r[i].Children()[k] < |p'|
      ensures p'[r[i].Children()[k]] == i
    {
      if i != t || k < |h[t].Children()| {
        assert i < |h| && r[i].Children()[k] == h[i].Children()[k];
        assert Forward(h[i].Children(), i, |h|);
      }
    }
    forall i, k1, k2 | 0 <= i < |r| && 0 <= k1 < k2 < |r[i].Children()|
      ensures r[i].Children()[k1] != r[i].Children()[k2]
    {
      assert i < |h|;
      if i == t && k2 == |h[t].Children()| {
        assert Forward(h[t].Children(), t, |h|);
        assert r[i].Children()[k1] == h[t].Children()[k1];
      }
    }
  }

  /** Hanging a new childless node under a named node keeps the arena a forest. */
  lemma AttachShape(h: seq<Node>, p: seq<int>, t: nat, n: Node)
    requires ShapeInv(h, p) && t < |h| && h[t].IsNamed() && !n.Null? && n.Children() == []
    ensures ShapeInv(Attach(h, t, n), p + [t as int])
  {
    AttachTreeShaped(h, t, n);
    AttachParents(h, p, t, n);
  }

  /** Rewriting nodes without touching their children or null-ness keeps the shape. */
  lemma ShapeFrame(h: seq<Node>, h': seq<Node>, p: seq<int>)
    requires ShapeInv(h, p) && |h'| == |h| && h'[0].Folder?
    requires forall i :: 0 <= i < |h| ==> h'[i].Children() == h[i].Children() && h'[i].Null? == h[i].Null?
    ensures ShapeInv(h', p)
  {
    assert forall i :: 0 <= i < |h| ==> Forward(h[i].Children(), i, |h|);
  }

  // Stack.

  /** Rewriting stack nodes without changing their kind or last child keeps the stack invariant. */
  lemma StackFrame(h: seq<Node>, h': seq<Node>, stack: seq<nat>, open: seq<string>)
    requires StackInv(h, stack, open) && |h| <= |h'|
    requires forall k :: 0 <= k < |stack| ==>
      h'[stack[k]].IsNamed() && KindName(h'[stack[k]]) == KindName(h[stack[k]])
    requires forall k :: 0 <= k < |stack| - 1 ==> LastChild(h'[stack[k]]) == LastChild(h[stack[k]])
    ensures StackInv(h', stack, open)
  {
    forall k: nat | k + 1 < |stack| ensures LinkAt(h', stack, Pushed(open), k) {
      assert LinkAt(h, stack, Pushed(open), k);
    }
  }

  /** A node attached under the top leaves every lower stack entry untouched. */
  lemma AttachStack(h: seq<Node>, stack: seq<nat>, open: seq<string>, n: Node)
    requires StackInv(h, stack, open)
    ensures StackInv(Attach(h, stack[|stack| - 1], n), stack, open)
  {
    var t := stack[|stack| - 1];
    var r := Attach(h, t, n);
    forall k | 0 <= k < |stack| - 1 ensures r[stack[k]] == h[stack[k]] {
      assert stack[k] < t;
    }
    StackFrame(h, r, stack, open);
  }

  /** A FOLDER or BOOKMARK start tag pushes the node it attached under the top. */
  lemma PushStack(h: seq<Node>, stack: seq<nat>, open: seq<string>, n: Node, name: string)
    requires StackInv(h, stack, open) && n.IsNamed() && Pops(name) && KindName(n) == name
    ensures StackInv(Attach(h, stack[|stack| - 1], n), stack + [|h|], open + [name])
  {
    var t := stack[|stack| - 1];
    var r := Attach(h, t, n);
    AttachStack(h, stack, open, n);
    PushedAppend(open, name);
    var stack' := stack + [|h|];
    var pushed' := Pushed(open + [name]);
    forall k: nat | k + 1 < |stack'| ensures LinkAt(r, stack', pushed', k) {
      if k + 1 < |stack| {
        assert LinkAt(r, stack, Pushed(open), k);
      }
    }
  }

  /** A start tag other than FOLDER and BOOKMARK leaves the stack as it is. */
  lemma OpenStack(h: seq<Node>, stack: seq<nat>, open: seq<string>, name: string)
    requires StackInv(h, stack, open) && !Pops(name)
    ensures StackInv(h, stack, open + [name])
  {
    PushedAppend(open, name);
    assert Pushed(open + [name]) == Pushed(open);
    forall k: nat | k + 1 < |stack| ensures LinkAt(h, stack, Pushed(open + [name]), k) {
      assert LinkAt(h, stack, Pushed(open), k);
    }
  }

  /** Closing the innermost open element pops exactly when it pushed. */
  lemma CloseStack(h: seq<Node>, stack: seq<nat>, open: seq<string>)
    requires StackInv(h, stack, open) && |open| > 0
    ensures Pops(open[|open| - 1]) ==> |stack| >= 2
    ensures StackInv(h, if Pops(open[|open| - 1]) then stack[..|stack| - 1] else stack, open[..|open| - 1])
  {
    var o := open[..|open| - 1];
    assert open == o + [open[|open| - 1]];
    PushedAppend(o, open[|open| - 1]);
    if !Pops(open[|open| - 1]) {
      forall k: nat | k + 1 < |stack| ensures LinkAt(h, stack, Pushed(o), k) {
        assert LinkAt(h, stack, Pushed(open), k);
      }
    } else {
      var stack' := stack[..|stack| - 1];
      forall k: nat | k + 1 < |stack'| ensures LinkAt(h, stack', Pushed(o), k) {
        assert LinkAt(h, stack, Pushed(open), k);
      }
    }
  }

  // ID map.

  /** Nodes that keep their kind and ID, plus new nodes without an ID, keep the ID map right. */
  lemma IdMapFrame(h: seq<Node>, h': seq<Node>, m: map<string, nat>)
    requires IdMapInv(h, m) && |h| <= |h'|
    requires forall i :: 0 <= i < |h| ==>
      h'[i].IsNamed() == h[i].IsNamed() && (h[i].IsNamed() ==> h'[i].named.id == h[i].named.id)
    requires forall i :: |h| <= i < |h'| ==> !(h'[i].IsNamed() && h'[i].named.id.Some?)
    ensures IdMapInv(h', m)
  {
  }

  /** A new node declared with an ID becomes that ID's entry; the one it replaces keeps its ID. */
  lemma IdMapRecord(h: seq<Node>, h': seq<Node>, m: map<string, nat>, attrs: Attrs)
    requires IdMapInv(h, m) && |h'| == |h| + 1
    requires forall i :: 0 <= i < |h| ==>
      h'[i].IsNamed() == h[i].IsNamed() && (h[i].IsNamed() ==> h'[i].named.id == h[i].named.id)
    requires h'[|h|].IsNamed() && h'[|h|].named.id == Attr(attrs, "ID")
    ensures IdMapInv(h', RecordId(m, |h|, attrs))
  {
  }

  lemma IdMapPush(h: seq<Node>, m: map<string, nat>, t: nat, n: Node, attrs: Attrs)
    requires IdMapInv(h, m) && t < |h| && h[t].IsNamed()
    requires n.IsNamed() && n.named.id == Attr(attrs, "ID")
    ensures IdMapInv(Attach(h, t, n), RecordId(m, |h|, attrs))
  {
    IdMapRecord(h, Attach(h, t, n), m, attrs);
  }

  // Each event.

  /** A start event keeps the whole invariant, with the element name pushed on `open`. */
  lemma StartInv(s: State, open: seq<string>, p: seq<int>, name: string, attrs: Attrs)
    requires Inv(s, open, p)
    ensures Inv(Start(s, name, attrs), open + [name], StartParents(s, p, name))
  {
    if Pops(name) {
      var n := if name == "FOLDER" then FolderNode(attrs) else BookmarkNode(Attr(attrs, "HREF"), attrs);
      PushInv(s, open, p, name, n, attrs);
    } else if name == "SEPARATOR" || name == "ALIAS" {
      var n := if name == "SEPARATOR" then Separator else NewAlias(Attr(attrs, "REF"));
      LeafInv(s, open, p, name, n);
    } else {
      OpenStack(s.heap, s.stack, open, name);
    }
  }

  lemma PushInv(s: State, open: seq<string>, p: seq<int>, name: string, n: Node, attrs: Attrs)
    requires Inv(s, open, p) && Pops(name) && n.IsNamed() && KindName(n) == name
    requires n.Children() == [] && n.named == Unnamed
    ensures Inv(PushAndApplyNode(s.(current := Some(name)), n, attrs), open + [name], p + [Top(s) as int])
  {
    var h := s.heap;
    var t := Top(s);
    var n' := ApplyNodeAttributes(n, attrs);
    var s1 := s.(current := Some(name));
    assert Top(s1) == t;
    var r := PushAndApplyNode(s1, n, attrs);
    assert ShapeInv(r.heap, p + [t as int]) by {
      AttachShape(h, p, t, n');
    }
    assert StackInv(r.heap, r.stack, open + [name]) by {
      PushStack(h, s.stack, open, n', name);
    }
    assert IdMapInv(r.heap, r.idmap) by {
      IdMapPush(h, s.idmap, t, n', attrs);
    }
  }

  lemma LeafInv(s: State, open: seq<string>, p: seq<int>, name: string, n: Node)
    requires Inv(s, open, p) && !Pops(name) && (n.Separator? || n.Alias?)
    ensures Inv(s.(current := Some(name), heap := Attach(s.heap, Top(s), n)), open + [name], p + [Top(s) as int])
  {
    var h := s.heap;
    var t := Top(s);
    var h' := Attach(h, t, n);
    assert s.(current := Some(name), heap := h') == State(h', s.stack, Some(name), s.idmap);
    assert ShapeInv(h', p + [t as int]) by {
      AttachShape(h, p, t, n);
    }
    assert StackInv(h', s.stack, open + [name]) by {
      AttachStack(h, s.stack, open, n);
      OpenStack(h', s.stack, open, name);
    }
    assert IdMapInv(h', s.idmap) by {
      IdMapFrame(h, h', s.idmap);
    }
  }

  /** The parent links after a start event: a new node hangs under the stack top. */
  function StartParents(s: State, p: seq<int>, name: string): seq<int>
    requires Sane(s)
  {
    if name in {"FOLDER", "BOOKMARK", "SEPARATOR", "ALIAS"} then p + [Top(s) as int] else p
  }

  /** Character data touches only the title or description of the stack top. */
  lemma CharactersInv(s: State, open: seq<string>, p: seq<int>, data: string)
    requires Inv(s, open, p)
    ensures Inv(Characters(s, data), open, p)
  {
    CharactersEffect(s, data);
    TopRewriteInv(s, Characters(s, data), open, p);
  }

  /** Rewriting the stack top without changing its kind, children or ID keeps the invariant. */
  lemma TopRewriteInv(s: State, r: State, open: seq<string>, p: seq<int>)
    requires Inv(s, open, p)
    requires r.stack == s.stack && r.idmap == s.idmap && |r.heap| == |s.heap|
    requires forall i :: 0 <= i < |s.heap| && i != Top(s) ==> r.heap[i] == s.heap[i]
    requires var n, n' := s.heap[Top(s)], r.heap[Top(s)];
      n'.IsNamed() && n'.Folder? == n.Folder? && n'.Children() == n.Children() && n'.named.id == n.named.id
    ensures Inv(r, open, p)
  {
    var t := Top(s);
    assert r.heap[0].Folder? by {
      if t != 0 {
        assert r.heap[0] == s.heap[0];
      }
    }
    assert ShapeInv(r.heap, p) by {
      ShapeFrame(s.heap, r.heap, p);
    }
    assert StackInv(r.heap, r.stack, open) by {
      StackFrame(s.heap, r.heap, s.stack, open);
    }
    assert IdMapInv(r.heap, r.idmap) by {
      IdMapFrame(s.heap, r.heap, s.idmap);
    }
  }

  /** An end tag closes the innermost open element; only FOLDER and BOOKMARK pop. */
  lemma EndInv(s: State, open: seq<string>, p: seq<int>, name: string)
    requires Inv(s, open, p) && |open| > 0 && open[|open| - 1] == name
    ensures Pops(name) ==> |s.stack| >= 2
    ensures Inv(End(s, name), open[..|open| - 1], p)
  {
    CloseStack(s.heap, s.stack, open);
  }

  /** Resolution only rewrites alias targets, so the invariant survives it. */
  lemma ResolveInv(s: State, open: seq<string>, p: seq<int>)
    requires Inv(s, open, p)
    ensures Inv(Resolve(s), open, p)
  {
    var r := Resolve(s);
    assert forall i :: 0 <= i < |s.heap| && !s.heap[i].Alias? ==> r.heap[i] == s.heap[i];
    ShapeFrame(s.heap, r.heap, p);
    StackFrame(s.heap, r.heap, s.stack, open);
    IdMapFrame(s.heap, r.heap, s.idmap);
  }

  // ---------------------------------------------------------------------------------------
  // Whole event streams.

  /**
   * The open elements after a prefix of the stream: None once an end tag does not match the
   * innermost open start tag, which expat never reports for a well-formed document.
   */
  function Open(events: seq<Event>): Option<seq<string>>
  {
    if events == [] then Some([])
    else
      var prev := Open(events[..|events| - 1]);
      if prev.None? then None else Next(prev.value, events[|events| - 1])
  }

  /** The open elements after one more event. */
  function Next(open: seq<string>, e: Event): (r: Option<seq<string>>)
    ensures e.StartElement? ==> r == Some(open + [e.name])
    ensures e.EndElement? ==> (r.Some? <==> |open| > 0 && open[|open| - 1] == e.name)
    ensures e.EndElement? && r.Some? ==> r.value == open[..|open| - 1]
    ensures e.CharacterData? || e.EndDocument? ==> r == Some(open)
  {
    match e
    case StartElement(n, _) => Some(open + [n])
    case EndElement(n) => if |open| > 0 && open[|open| - 1] == n then Some(open[..|open| - 1]) else None
    case _ => Some(open)
  }

  /** The parser's state after a run, with the ghost bookkeeping the invariant speaks about. */
  datatype Run = Run(state: State, open: seq<string>, parents: seq<int>)

  /** One SAX event applied to a run; every event keeps the invariant. */
  ghost function Step(r: Run, e: Event): (r': Run)
    requires Inv(r.state, r.open, r.parents) && Next(r.open, e).Some?
    ensures Inv(r'.state, r'.open, r'.parents) && r'.open == Next(r.open, e).value
  {
    var s, o, p := r.state, r.open, r.parents;
    match e
    case StartElement(n, a) =>
      StartInv(s, o, p, n, a);
      Run(Start(s, n, a), o + [n], StartParents(s, p, n))
    case CharacterData(d) =>
      CharactersInv(s, o, p, d);
      Run(Characters(s, d), o, p)
    case EndElement(n) =>
      EndInv(s, o, p, n);
      Run(End(s, n), o[..|o| - 1], p)
    case EndDocument =>
      ResolveInv(s, o, p);
      Run(Resolve(s), o, p)
  }

  /**
   * Feeding a well-nested stream to a fresh parser keeps the invariant after every event:
   * the arena stays a forest under the root Folder, the stack mirrors the open FOLDER and
   * BOOKMARK elements, and the ID map names the last node declared with each ID.
   */
  ghost function Feed(events: seq<Event>): (r: Run)
    requires Open(events).Some?
    ensures Inv(r.state, r.open, r.parents) && r.open == Open(events).value
  {
    if events == [] then
      InitInv();
      Run(Init, [], [-1])
    else
      var prefix := events[..|events| - 1];
      assert Open(prefix).Some? && Open(events) == Next(Open(prefix).value, events[|events| - 1]);
      Step(Feed(prefix), events[|events| - 1])
  }

  /** Once every element is closed, the stack is back to the root alone (`getRoot()`). */
  lemma CompleteDocument(events: seq<Event>)
    requires Open(events) == Some([])
    ensures Feed(events).state.stack == [0]
  {
    var r := Feed(events);
    assert StackInv(r.state.heap, r.state.stack, r.open);
    assert r.open == [] && Pushed([]) == [];
    assert |r.state.stack| == 1 && r.state.stack[0] == 0;
  }

  /** Every alias still holds the ID text it was created with. */
  ghost predicate Unresolved(h: seq<Node>) {
    forall i :: 0 <= i < |h| && h[i].Alias? ==> h[i].target.IdRef?
  }

  /**
   * Without an EndDocument event nothing resolves aliases: the parser's own stream from
   * lib/SAX/Parser.php:156-168 never calls endDocument, so `parseXBEL` returns a tree whose
   * aliases hold their REF strings.
   */
  lemma {:induction false} FeedUnresolved(events: seq<Event>)
    requires Open(events).Some? && EndDocument !in events
    ensures Unresolved(Feed(events).state.heap)
  {
    if events != [] {
      var prefix := events[..|events| - 1];
      assert events == prefix + [events[|events| - 1]];
      assert Open(prefix).Some?;
      FeedUnresolved(prefix);
      var prev := Feed(prefix);
      InvSane(prev.state, prev.open, prev.parents);
      assert Feed(events) == Step(prev, events[|events| - 1]);
      match events[|events| - 1]
      case StartElement(n, a) =>
        StartUnresolved(prev.state, n, a);
      case CharacterData(d) =>
        CharactersUnresolved(prev.state, d);
      case EndElement(n) =>
    }
  }

  /** A new alias holds its REF string; nothing else touches alias targets. */
  lemma StartUnresolved(s: State, name: string, attrs: Attrs)
    requires Sane(s) && Unresolved(s.heap)
    ensures Unresolved(Start(s, name, attrs).heap)
  {
    var r := Start(s, name, attrs);
    if name == "FOLDER" {
      assert r.heap == Attach(s.heap, Top(s), ApplyNodeAttributes(FolderNode(attrs), attrs));
      AttachUnresolved(s.heap, Top(s), ApplyNodeAttributes(FolderNode(attrs), attrs));
    } else if name == "BOOKMARK" {
      var b := BookmarkNode(Attr(attrs, "HREF"), attrs);
      assert r.heap == Attach(s.heap, Top(s), ApplyNodeAttributes(b, attrs));
      AttachUnresolved(s.heap, Top(s), ApplyNodeAttributes(b, attrs));
    } else if name == "SEPARATOR" {
      AttachUnresolved(s.heap, Top(s), Separator);
    } else if name == "ALIAS" {
      AttachUnresolved(s.heap, Top(s), NewAlias(Attr(attrs, "REF")));
    }
  }

  lemma AttachUnresolved(h: seq<Node>, t: nat, n: Node)
    requires Unresolved(h) && t < |h| && h[t].IsNamed() && (n.Alias? ==> n.target.IdRef?)
    ensures Unresolved(Attach(h, t, n))
  {
  }

  lemma CharactersUnresolved(s: State, data: string)
    requires Sane(s) && Unresolved(s.heap)
    ensures Unresolved(Characters(s, data).heap)
  {
    CharactersEffect(s, data);
  }

  /**
   * What AliasResolver does to an alias the traversal of the root reaches: a REF naming a
   * declared ID now points at the node declared LAST with that ID (a later duplicate
   * overwrites an earlier one, lib/XBEL/Parser.php:170), and a REF naming no declared ID
   * becomes null.
   */
  lemma ResolvedTarget(s: State, open: seq<string>, p: seq<int>, i: nat, key: string)
    requires Inv(s, open, p) && i < |s.heap| && s.heap[i] == Alias(IdRef(Some(key)))
    requires VisitAlias(i) in Visit(s.heap, 0)
    ensures key in s.idmap ==> exists j :: Resolve(s).heap[i] == Alias(NodeRef(Some(j))) && LastWithId(s.heap, key, j)
    ensures key !in s.idmap ==> Resolve(s).heap[i] == Alias(NodeRef(None))
  {
    if key in s.idmap {
      var j := s.idmap[key];
      assert Resolve(s).heap[i] == Alias(NodeRef(Some(j)));
      assert LastWithId(s.heap, key, j);
    } else {
      forall j | 0 <= j < |s.heap| && s.heap[j].IsNamed() ensures s.heap[j].named.id != Some(key) {
      }
    }
  }

  /**
   * A second endDocument looks an alias the first one left null up again, under "" (the key
   * PHP uses for null): it now points at the last node declared with an empty ID, if any.
   */
  lemma ResolvedAgain(s: State, open: seq<string>, p: seq<int>, i: nat)
    requires Inv(s, open, p) && i < |s.heap| && s.heap[i] == Alias(NodeRef(None))
    requires VisitAlias(i) in Visit(s.heap, 0)
    ensures "" in s.idmap ==> exists j :: Resolve(s).heap[i] == Alias(NodeRef(Some(j))) && LastWithId(s.heap, "", j)
    ensures "" !in s.idmap ==> Resolve(s).heap[i] == Alias(NodeRef(None))
  {
    if "" in s.idmap {
      var j := s.idmap[""];
      assert Resolve(s).heap[i] == Alias(NodeRef(Some(j)));
      assert LastWithId(s.heap, "", j);
    }
  }

  /** Node `j` carries ID `key`, and no node created after it does. */
  ghost predicate LastWithId(h: seq<Node>, key: string, j: nat) {
    && j < |h| && h[j].IsNamed() && h[j].named.id == Some(key)
    && forall i :: j < i < |h| && h[i].IsNamed() ==> h[i].named.id != Some(key)
  }

  /**
   * trim() runs after every chunk of character data, so the whitespace at the end of one
   * chunk is lost when the next arrives: a title delivered as "a " then "b" reads "ab".
   */
  lemma ChunkedTitle()
    ensures Trim(Trim("" + "a ") + "b") == "ab"
  {
    assert "" + "a " == "a ";
    assert IsSpace(' ') && !IsSpace('a') && !IsSpace('b');
    assert TrimLeft("a ") == "a ";
    assert "a "[..1] == "a";
    assert TrimRight("a") == "a";
    assert TrimRight("a ") == "a";
    assert Trim("a ") == "a";
    assert "a" + "b" == "ab";
    assert TrimLeft("ab") == "ab" && TrimRight("ab") == "ab";
  }
}
