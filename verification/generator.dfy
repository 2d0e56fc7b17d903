/**
 * XBEL\Generator (lib/XBEL/Generator.php): a visitor that writes a node tree back out as an
 * XBEL document through an XMLWriter. The writer is modelled by the sequence of calls made
 * on it; what XMLWriter turns those calls into (escaping, indentation, the file) is not.
 */
module XbelGenerator {
  import opened XbelNodes
  import opened Traversal

  /** One call on the XMLWriter. A null attribute value is passed on as null. */
  datatype WriterOp =
    | WriteDtd(name: string, publicId: Str, systemId: Str)
    | StartElement(name: string)
    | WriteAttribute(name: string, value: Str)
    | Text(content: string)
    | EndElement
    | Flush

  // ---------------------------------------------------------------------------------------
  // PHP arrays with string keys, in insertion order.

  /** One `key => value` entry. */
  datatype Entry = Entry(key: string, value: Str)

  function Keys(arr: seq<Entry>): set<string> {
    if arr == [] then {} else {arr[0].key} + Keys(arr[1..])
  }

  lemma {:induction false} KeysConcat(a: seq<Entry>, b: seq<Entry>)
    ensures Keys(a + b) == Keys(a) + Keys(b)
  {
    if a != [] {
      assert (a + b)[1..] == a[1..] + b;
      KeysConcat(a[1..], b);
    } else {
      assert a + b == b;
    }
  }

  /** `$arr[$key]`: the value of the first entry with that key, None when there is none. */
  function Lookup(arr: seq<Entry>, key: string): (v: Option<Str>)
    ensures v.Some? <==> key in Keys(arr)
  {
    if arr == [] then None else if arr[0].key == key then Some(arr[0].value) else Lookup(arr[1..], key)
  }

  /** The entries of `a`, each with the value `b` gives its key, if any. */
  function Override(a: seq<Entry>, b: seq<Entry>): (r: seq<Entry>)
    ensures Keys(r) == Keys(a)
    ensures Keys(a) !! Keys(b) ==> r == a
  {
    if a == [] then []
    else
      var v := Lookup(b, a[0].key);
      [if v.Some? then Entry(a[0].key, v.value) else a[0]] + Override(a[1..], b)
  }

  /** The entries of `b` whose key `a` does not have. */
  function Fresh(b: seq<Entry>, a: seq<Entry>): (r: seq<Entry>)
    ensures Keys(a) !! Keys(b) ==> r == b
  {
    if b == [] then [] else (if b[0].key in Keys(a) then [] else [b[0]]) + Fresh(b[1..], a)
  }

  /**
   * `array_merge($a, $b)` for string keys: the entries of `$a`, those `$b` shares taking
   * `$b`'s value, followed by the entries only `$b` has. When no key is shared, `$b` is simply
   * appended.
   */
  function ArrayMerge(a: seq<Entry>, b: seq<Entry>): (r: seq<Entry>)
    ensures Keys(a) !! Keys(b) ==> r == a + b
  {
    Override(a, b) + Fresh(b, a)
  }

  lemma {:induction false} OverrideLookup(a: seq<Entry>, b: seq<Entry>, key: string)
    ensures Lookup(Override(a, b), key) == if key in Keys(a) && Lookup(b, key).Some? then Lookup(b, key) else Lookup(a, key)
  {
    if a != [] {
      OverrideLookup(a[1..], b, key);
    }
  }

  lemma {:induction false} FreshLookup(b: seq<Entry>, a: seq<Entry>, key: string)
    requires key !in Keys(a)
    ensures Lookup(Fresh(b, a), key) == Lookup(b, key)
  {
    if b != [] {
      FreshLookup(b[1..], a, key);
      var head := if b[0].key in Keys(a) then [] else [b[0]];
      assert Fresh(b, a) == head + Fresh(b[1..], a);
      if head == [] {
        assert Fresh(b, a) == Fresh(b[1..], a);
      } else {
        assert Fresh(b, a)[0] == b[0] && Fresh(b, a)[1..] == Fresh(b[1..], a);
      }
    }
  }

  lemma {:induction false} LookupConcat(a: seq<Entry>, b: seq<Entry>, key: string)
    ensures Lookup(a + b, key) == if key in Keys(a) then Lookup(a, key) else Lookup(b, key)
  {
    if a != [] {
      assert (a + b)[0] == a[0] && (a + b)[1..] == a[1..] + b;
      LookupConcat(a[1..], b, key);
    } else {
      assert a + b == b;
    }
  }

  /** Reading a key of the merge gives `$b`'s value when `$b` has the key, `$a`'s otherwise. */
  lemma MergeLookup(a: seq<Entry>, b: seq<Entry>, key: string)
    ensures Lookup(ArrayMerge(a, b), key) == if Lookup(b, key).Some? then Lookup(b, key) else Lookup(a, key)
  {
    LookupConcat(Override(a, b), Fresh(b, a), key);
    OverrideLookup(a, b, key);
    if key !in Keys(a) {
      FreshLookup(b, a, key);
    }
  }

  // ---------------------------------------------------------------------------------------
  // What each callback writes.

  /** `if ($value != null) $arr[$key] = $value;` on a fresh key. */
  function IfPresent(key: string, value: Str): (arr: seq<Entry>)
    ensures Keys(arr) <= {key}
    ensures Lookup(arr, key) == if Present(value) then Some(value) else None
  {
    if Present(value) then [Entry(key, value)] else []
  }

  /** The position of a named node's attribute in getNamedNodeAttributes: id, added, modified. */
  function Rank(key: string): nat {
    if key == "id" then 0 else if key == "added" then 1 else 2
  }

  /**
   * `getNamedNodeAttributes($node)` (lib/XBEL/Generator.php:146-153): id, added and modified,
   * each only when it is neither null nor "". A Folder has no `modified` property, so PHP
   * reads null there.
   */
  function NamedNodeAttributes(n: Node): (arr: seq<Entry>)
    requires n.IsNamed()
    ensures Keys(arr) <= {"id", "added", "modified"}
    ensures Lookup(arr, "id") == if Present(n.named.id) then Some(n.named.id) else None
    ensures Lookup(arr, "added") == if Present(n.named.added) then Some(n.named.added) else None
    ensures Lookup(arr, "modified") == if n.Bookmark? && Present(n.modified) then Some(n.modified) else None
    ensures forall k :: 0 <= k < |arr| ==> Present(arr[k].value)
  {
    var modified := if n.Bookmark? then n.modified else None;
    var a1 := IfPresent("id", n.named.id);
    var a2 := IfPresent("added", n.named.added);
    var a3 := IfPresent("modified", modified);
    KeysConcat(a1, a2);
    KeysConcat(a1 + a2, a3);
    LookupConcat(a1, a2, "id");
    LookupConcat(a1, a2, "added");
    LookupConcat(a1, a2, "modified");
    LookupConcat(a1 + a2, a3, "id");
    LookupConcat(a1 + a2, a3, "added");
    LookupConcat(a1 + a2, a3, "modified");
    a1 + a2 + a3
  }

  /** getNamedNodeAttributes sets each key at most once, in the order id, added, modified. */
  lemma NamedNodeAttributesOrder(n: Node)
    requires n.IsNamed()
    ensures var arr := NamedNodeAttributes(n);
      forall k1, k2 :: 0 <= k1 < k2 < |arr| ==> Rank(arr[k1].key) < Rank(arr[k2].key)
  {
  }

  /** The attribute array of `beforeVisitingFolder` (lib/XBEL/Generator.php:99-101). */
  function FolderAttributes(n: Node): (arr: seq<Entry>)
    requires n.Folder?
    ensures arr == NamedNodeAttributes(n) + (if n.folded then [Entry("folded", Some("true"))] else [])
  {
    var extra := if n.folded then [Entry("folded", Some("true"))] else [];
    assert Keys(extra) <= {"folded"} by {
      assert extra != [] ==> extra[1..] == [];
    }
    ArrayMerge(NamedNodeAttributes(n), extra)
  }

  /**
   * The attribute array of `visitBookmark` (lib/XBEL/Generator.php:120-121): href comes
   * last, and is written even when it is null.
   */
  function BookmarkAttributes(n: Node): (arr: seq<Entry>)
    requires n.Bookmark?
    ensures arr == NamedNodeAttributes(n) + [Entry("href", n.href)]
  {
    assert Keys([Entry("href", n.href)]) == {"href"} by {
      assert [Entry("href", n.href)][1..] == [];
    }
    ArrayMerge(NamedNodeAttributes(n), [Entry("href", n.href)])
  }

  /** `writeAttributes($attrs)`: one writeAttribute per entry, in order (lib/XBEL/Generator.php:177-181). */
  function WriteAttributes(arr: seq<Entry>): (ops: seq<WriterOp>)
    ensures |ops| == |arr|
    ensures forall k :: 0 <= k < |arr| ==> ops[k] == WriteAttribute(arr[k].key, arr[k].value)
  {
    if arr == [] then [] else [WriteAttribute(arr[0].key, arr[0].value)] + WriteAttributes(arr[1..])
  }

  /** `addTextualElement($name, $content)`: only content that is neither null nor "" (lib/XBEL/Generator.php:162-170). */
  function TextualElement(name: string, content: Str): (ops: seq<WriterOp>)
    ensures Present(content) ==> ops == [StartElement(name), Text(content.value), EndElement]
    ensures !Present(content) ==> ops == []
  {
    if Present(content) then [StartElement(name), Text(content.value), EndElement] else []
  }

  /** `addNamedNodeElements($node)`: title, then description (lib/XBEL/Generator.php:134-138). */
  function NamedNodeElements(n: Node): seq<WriterOp>
    requires n.IsNamed()
  {
    TextualElement("title", n.named.title) + TextualElement("description", n.named.description)
  }

  /**
   * `$alias->target->id`: the ID of the node an alias was resolved to. An unresolved target
   * (still the REF string) or a null target has no properties, and PHP reads null.
   */
  function RefOf(h: seq<Node>, t: Target): (ref: Str)
    ensures t.IdRef? || t.node.None? ==> ref == None
    ensures ref.Some? ==> t.NodeRef? && t.node.Some? && t.node.value < |h| && h[t.node.value].IsNamed()
    ensures t.NodeRef? && t.node.Some? && t.node.value < |h| && h[t.node.value].IsNamed() ==>
      ref == h[t.node.value].named.id
  {
    match t
    case NodeRef(Some(j)) => if j < |h| && h[j].IsNamed() then h[j].named.id else None
    case _ => None
  }

  /** What `beforeVisitingFolder` writes: the folder's start tag, attributes, title and description. */
  function FolderOpening(n: Node): seq<WriterOp>
    requires n.Folder?
  {
    [StartElement("folder")] + WriteAttributes(FolderAttributes(n)) + NamedNodeElements(n)
  }

  /** What `visitBookmark` writes: a whole, childless bookmark element. */
  function BookmarkElement(n: Node): seq<WriterOp>
    requires n.Bookmark?
  {
    [StartElement("bookmark")] + WriteAttributes(BookmarkAttributes(n)) + NamedNodeElements(n) + [EndElement]
  }

  /** What `visitAlias` writes. */
  function AliasElement(h: seq<Node>, t: Target): seq<WriterOp> {
    [StartElement("alias"), WriteAttribute("ref", RefOf(h, t)), EndElement]
  }

  /** What `visitSeparator` writes. */
  const SeparatorElement: seq<WriterOp> := [StartElement("separator"), EndElement]

  /**
   * The writer calls one visitor callback makes (lib/XBEL/Generator.php:78-127). A callback
   * for a node of another kind, which no traversal makes (Traversal.VisitKinds), writes nothing.
   */
  function OpsOf(h: seq<Node>, c: Callback): seq<WriterOp> {
    if !Fits(h, c) then [] else
    match c
    case BeforeVisitingFolder(i) => FolderOpening(h[i])
    case VisitFolder(_) => []
    case AfterVisitingFolder(_) => [EndElement]
    case VisitBookmark(i) => BookmarkElement(h[i])
    case VisitSeparator(_) => SeparatorElement
    case VisitAlias(i) => AliasElement(h, h[i].target)
  }

  /** The writer calls of a whole trace, callback after callback. */
  function Emit(h: seq<Node>, t: seq<Callback>): seq<WriterOp> {
    if t == [] then [] else Emit(h, t[..|t| - 1]) + OpsOf(h, t[|t| - 1])
  }

  lemma {:induction false} EmitConcat(h: seq<Node>, a: seq<Callback>, b: seq<Callback>)
    ensures Emit(h, a + b) == Emit(h, a) + Emit(h, b)
    decreases |b|
  {
    if b != [] {
      var b' := b[..|b| - 1];
      assert (a + b)[..|a + b| - 1] == a + b';
      assert (a + b)[|a + b| - 1] == b[|b| - 1];
      EmitConcat(h, a, b');
    } else {
      assert a + b == a;
    }
  }

  // ---------------------------------------------------------------------------------------
  // The document, defined over the tree.

  /** The XBEL element of a node, its children's elements nested inside a folder's. */
  function Element(h: seq<Node>, i: nat): seq<WriterOp>
    requires WellFormed(h) && i < |h|
    decreases |h| - i, 1, 0
  {
    match h[i]
    case Folder(_, _, cs) => FolderOpening(h[i]) + Elements(h, cs, i) + [EndElement]
    case Bookmark(_, _, _, _, _) => BookmarkElement(h[i])
    case Separator => SeparatorElement
    case Alias(t) => AliasElement(h, t)
    case Null => []
  }

  /** The elements of a list of children, in order. */
  function Elements(h: seq<Node>, cs: seq<nat>, parent: nat): seq<WriterOp>
    requires WellFormed(h) && Forward(cs, parent, |h|)
    decreases |h| - parent, 0, |cs|
  {
    if cs == [] then [] else Element(h, cs[0]) + Elements(h, cs[1..], parent)
  }

  /** The fixed opening of every document (lib/XBEL/Generator.php:59-63). */
  const Header: seq<WriterOp> :=
    [WriteDtd("xbel", None, None), StartElement("xbel"), WriteAttribute("version", Some("1.0"))]

  /**
   * `process($xbel)` (lib/XBEL/Generator.php:56-73): the DTD, an `xbel` element holding the
   * elements of the root's children, then a flush. The DTD's public and system IDs are read
   * as `$this->PUBLIC_ID` and `$this->SYSTEM_ID`, undefined properties, so both are null.
   * The root itself is not written: its title, description and folded flag are lost. A node
   * without children (a separator or alias as the root) gives an empty `xbel` element.
   */
  function Document(h: seq<Node>, r: nat): seq<WriterOp>
    requires WellFormed(h) && r < |h|
  {
    Header + Elements(h, h[r].Children(), r) + [EndElement, Flush]
  }

  lemma EmitOne(h: seq<Node>, c: Callback)
    ensures Emit(h, [c]) == OpsOf(h, c)
  {
    assert [c][..0] == [];
  }

  lemma EmitFolder(h: seq<Node>, i: nat, inner: seq<Callback>)
    requires i < |h| && h[i].Folder?
    ensures var t := [BeforeVisitingFolder(i), VisitFolder(i)] + inner + [AfterVisitingFolder(i)];
      Emit(h, t) == OpsOf(h, BeforeVisitingFolder(i)) + Emit(h, inner) + [EndElement]
  {
    var b, v, a := BeforeVisitingFolder(i), VisitFolder(i), AfterVisitingFolder(i);
    EmitBracket(h, b, v, inner, a);
    FolderCallbacks(h, i);
    assert Emit(h, [b]) + Emit(h, [v]) == OpsOf(h, b);
  }

  /** One folder's bracketing callbacks: visitFolder writes nothing, afterVisitingFolder one end tag. */
  lemma FolderCallbacks(h: seq<Node>, i: nat)
    requires i < |h| && h[i].Folder?
    ensures Emit(h, [BeforeVisitingFolder(i)]) == OpsOf(h, BeforeVisitingFolder(i))
    ensures Emit(h, [VisitFolder(i)]) == [] && Emit(h, [AfterVisitingFolder(i)]) == [EndElement]
  {
    EmitOne(h, BeforeVisitingFolder(i));
    EmitOne(h, VisitFolder(i));
    EmitOne(h, AfterVisitingFolder(i));
  }

  /** The calls of a bracketed trace: its opening pair, the inside, then its closing callback. */
  lemma EmitBracket(h: seq<Node>, b: Callback, v: Callback, inner: seq<Callback>, a: Callback)
    ensures Emit(h, [b, v] + inner + [a]) == Emit(h, [b]) + Emit(h, [v]) + Emit(h, inner) + Emit(h, [a])
  {
    EmitConcat(h, [b], [v]);
    assert [b] + [v] == [b, v];
    EmitConcat(h, [b, v], inner);
    EmitConcat(h, [b, v] + inner, [a]);
  }

  /** The visitor's output for a node is the node's element: the flat callbacks nest. */
  lemma {:induction false} EmitVisit(h: seq<Node>, i: nat)
    requires WellFormed(h) && i < |h|
    ensures Emit(h, Visit(h, i)) == Element(h, i)
    decreases |h| - i, 1, 0
  {
    if h[i].Folder? {
      EmitVisitChildren(h, h[i].children, i);
      EmitVisitFolder(h, i);
    } else {
      EmitVisitLeaf(h, i);
    }
  }

  lemma EmitVisitFolder(h: seq<Node>, i: nat)
    requires WellFormed(h) && i < |h| && h[i].Folder?
    requires Emit(h, VisitChildren(h, h[i].children, i)) == Elements(h, h[i].children, i)
    ensures Emit(h, Visit(h, i)) == Element(h, i)
  {
    EmitFolder(h, i, VisitChildren(h, h[i].children, i));
    assert OpsOf(h, BeforeVisitingFolder(i)) == FolderOpening(h[i]);
  }

  lemma EmitVisitLeaf(h: seq<Node>, i: nat)
    requires WellFormed(h) && i < |h| && !h[i].Folder?
    ensures Emit(h, Visit(h, i)) == Element(h, i)
  {
    var c := match h[i]
      case Bookmark(_, _, _, _, _) => VisitBookmark(i)
      case Separator => VisitSeparator(i)
      case _ => VisitAlias(i);
    if !h[i].Null? {
      assert Visit(h, i) == [c];
      EmitOne(h, c);
      assert Element(h, i) == OpsOf(h, c);
    }
  }

  lemma {:induction false} EmitVisitChildren(h: seq<Node>, cs: seq<nat>, parent: nat)
    requires WellFormed(h) && Forward(cs, parent, |h|)
    ensures Emit(h, VisitChildren(h, cs, parent)) == Elements(h, cs, parent)
    decreases |h| - parent, 0, |cs|
  {
    if cs != [] {
      var first, rest := Visit(h, cs[0]), VisitChildren(h, cs[1..], parent);
      assert VisitChildren(h, cs, parent) == first + rest;
      assert Elements(h, cs, parent) == Element(h, cs[0]) + Elements(h, cs[1..], parent);
      EmitVisit(h, cs[0]);
      EmitVisitChildren(h, cs[1..], parent);
      EmitConcat(h, first, rest);
    }
  }

  // ---------------------------------------------------------------------------------------
  // The writer calls form a well-formed XML document.

  /** What XMLWriter keeps track of: how many elements are open, and whether a start tag still is. */
  datatype Writer = Writer(depth: nat, tagOpen: bool)

  /**
   * XMLWriter's discipline for one call: the DTD only before any element, an attribute only
   * while a start tag is open (before any content), text only inside an element, an end
   * only for an open element. None when the call breaks it.
   */
  function Apply(op: WriterOp, w: Writer): Option<Writer> {
    match op
    case WriteDtd(_, _, _) => if w.depth == 0 then Some(Writer(0, false)) else None
    case StartElement(_) => Some(Writer(w.depth + 1, true))
    case WriteAttribute(_, _) => if w.tagOpen then Some(w) else None
    case Text(_) => if w.depth > 0 then Some(Writer(w.depth, false)) else None
    case EndElement => if w.depth > 0 then Some(Writer(w.depth - 1, false)) else None
    case Flush => Some(w)
  }

  /** The writer after a sequence of calls, or None at the first one that breaks the discipline. */
  function Replay(ops: seq<WriterOp>, w: Writer): Option<Writer> {
    if ops == [] then Some(w)
    else
      var next := Apply(ops[0], w);
      if next.None? then None else Replay(ops[1..], next.value)
  }

  lemma {:induction false} ReplayConcat(a: seq<WriterOp>, b: seq<WriterOp>, w: Writer)
    ensures Replay(a + b, w) == if Replay(a, w).None? then None else Replay(b, Replay(a, w).value)
  {
    if a == [] {
      assert a + b == b;
    } else {
      assert (a + b)[0] == a[0] && (a + b)[1..] == a[1..] + b;
      var next := Apply(a[0], w);
      if next.Some? {
        ReplayConcat(a[1..], b, next.value);
      }
    }
  }

  lemma {:induction false} ReplayAttributes(arr: seq<Entry>, depth: nat)
    ensures Replay(WriteAttributes(arr), Writer(depth, true)) == Some(Writer(depth, true))
  {
    if arr != [] {
      ReplayAttributes(arr[1..], depth);
    }
  }

  lemma ReplayCons(op: WriterOp, rest: seq<WriterOp>, w: Writer)
    ensures Replay([op] + rest, w) == if Apply(op, w).None? then None else Replay(rest, Apply(op, w).value)
  {
    assert ([op] + rest)[0] == op && ([op] + rest)[1..] == rest;
  }

  /** Start, then end: the writer is back at its depth with no start tag open. */
  lemma ReplayOpenClose(name: string, middle: seq<WriterOp>, w: Writer)
    requires Replay(middle, Writer(w.depth + 1, true)).Some?
    requires Replay(middle, Writer(w.depth + 1, true)).value.depth == w.depth + 1
    ensures Replay([StartElement(name)] + middle + [EndElement], w) == Some(Writer(w.depth, false))
  {
    assert [StartElement(name)] + middle + [EndElement] == [StartElement(name)] + (middle + [EndElement]);
    ReplayCons(StartElement(name), middle + [EndElement], w);
    ReplayConcat(middle, [EndElement], Writer(w.depth + 1, true));
  }

  lemma ReplayTextual(name: string, content: Str, w: Writer)
    ensures Replay(TextualElement(name, content), w) == Some(if Present(content) then Writer(w.depth, false) else w)
  {
    if Present(content) {
      assert Replay([Text(content.value)], Writer(w.depth + 1, true)) == Some(Writer(w.depth + 1, false));
      ReplayOpenClose(name, [Text(content.value)], w);
      assert TextualElement(name, content) == [StartElement(name)] + [Text(content.value)] + [EndElement];
    }
  }

  lemma ReplayNamed(n: Node, w: Writer)
    requires n.IsNamed()
    ensures Replay(NamedNodeElements(n), w).Some? && Replay(NamedNodeElements(n), w).value.depth == w.depth
  {
    ReplayTextual("title", n.named.title, w);
    var w1 := Replay(TextualElement("title", n.named.title), w).value;
    ReplayTextual("description", n.named.description, w1);
    ReplayConcat(TextualElement("title", n.named.title), TextualElement("description", n.named.description), w);
  }

  /** An opening tag with its attributes and texts leaves one more element open. */
  lemma ReplayOpening(n: Node, attrs: seq<Entry>, start: string, w: Writer)
    requires n.IsNamed()
    ensures var ops := [StartElement(start)] + WriteAttributes(attrs) + NamedNodeElements(n);
      Replay(ops, w).Some? && Replay(ops, w).value.depth == w.depth + 1
  {
    var s := [StartElement(start)];
    assert Replay(s, w) == Some(Writer(w.depth + 1, true));
    ReplayAttributes(attrs, w.depth + 1);
    ReplayConcat(s, WriteAttributes(attrs), w);
    ReplayNamed(n, Writer(w.depth + 1, true));
    ReplayConcat(s + WriteAttributes(attrs), NamedNodeElements(n), w);
  }

  lemma ReplayEnd(w: Writer)
    requires w.depth > 0
    ensures Replay([EndElement], w) == Some(Writer(w.depth - 1, false))
  {
  }

  /** An element leaves the writer as deep as it found it. */
  lemma {:induction false} ReplayElement(h: seq<Node>, i: nat, w: Writer)
    requires WellFormed(h) && i < |h|
    ensures Replay(Element(h, i), w).Some? && Replay(Element(h, i), w).value.depth == w.depth
    decreases |h| - i, 1, 0
  {
    match h[i]
    case Folder(_, _, cs) =>
      ReplayOpening(h[i], FolderAttributes(h[i]), "folder", w);
      var w1 := Replay(FolderOpening(h[i]), w).value;
      ReplayElements(h, cs, i, w1);
      ReplayConcat(FolderOpening(h[i]), Elements(h, cs, i), w);
      var w2 := Replay(Elements(h, cs, i), w1).value;
      ReplayEnd(w2);
      ReplayConcat(FolderOpening(h[i]) + Elements(h, cs, i), [EndElement], w);
    case Bookmark(_, _, _, _, _) =>
      var opening := [StartElement("bookmark")] + WriteAttributes(BookmarkAttributes(h[i])) + NamedNodeElements(h[i]);
      ReplayOpening(h[i], BookmarkAttributes(h[i]), "bookmark", w);
      ReplayEnd(Replay(opening, w).value);
      ReplayConcat(opening, [EndElement], w);
    case Separator =>
      assert Replay([], Writer(w.depth + 1, true)) == Some(Writer(w.depth + 1, true));
      ReplayOpenClose("separator", [], w);
      assert SeparatorElement == [StartElement("separator")] + [] + [EndElement];
    case Alias(t) =>
      var attr := [WriteAttribute("ref", RefOf(h, t))];
      assert Replay(attr, Writer(w.depth + 1, true)) == Some(Writer(w.depth + 1, true));
      ReplayOpenClose("alias", attr, w);
      assert AliasElement(h, t) == [StartElement("alias")] + attr + [EndElement];
    case Null =>
  }

  lemma {:induction false} ReplayElements(h: seq<Node>, cs: seq<nat>, parent: nat, w: Writer)
    requires WellFormed(h) && Forward(cs, parent, |h|)
    ensures Replay(Elements(h, cs, parent), w).Some? && Replay(Elements(h, cs, parent), w).value.depth == w.depth
    decreases |h| - parent, 0, |cs|
  {
    if cs != [] {
      ReplayElement(h, cs[0], w);
      ReplayElements(h, cs[1..], parent, Replay(Element(h, cs[0]), w).value);
      ReplayConcat(Element(h, cs[0]), Elements(h, cs[1..], parent), w);
    }
  }

  /**
   * The document is a well-formed XMLWriter session: the DTD comes first, every element
   * written is closed, innermost first, every attribute belongs to the start tag just
   * written, and nothing is left open when the writer is flushed.
   */
  lemma DocumentNests(h: seq<Node>, r: nat)
    requires WellFormed(h) && r < |h|
    ensures Replay(Document(h, r), Writer(0, false)) == Some(Writer(0, false))
  {
    var w0 := Writer(0, false);
    var inner := Elements(h, h[r].Children(), r);
    ReplayHeader();
    ReplayElements(h, h[r].Children(), r, Writer(1, true));
    ReplayConcat(Header, inner, w0);
    ReplayClosing(Replay(inner, Writer(1, true)).value);
    ReplayConcat(Header + inner, [EndElement, Flush], w0);
  }

  lemma ReplayHeader()
    ensures Replay(Header, Writer(0, false)) == Some(Writer(1, true))
  {
    assert Header[1..] == [StartElement("xbel"), WriteAttribute("version", Some("1.0"))];
    assert Header[1..][1..] == [WriteAttribute("version", Some("1.0"))] && Header[1..][1..][1..] == [];
  }

  lemma ReplayClosing(w: Writer)
    requires w.depth == 1
    ensures Replay([EndElement, Flush], w) == Some(Writer(0, false))
  {
    assert [EndElement, Flush][1..] == [Flush] && [EndElement, Flush][1..][1..] == [];
  }

  // ---------------------------------------------------------------------------------------
  // The vocabulary written.

  /** The element names the generator writes. */
  const ElementNames: set<string> := {"xbel", "folder", "bookmark", "separator", "alias", "title", "description"}

  /** The attribute names the generator writes. */
  const AttributeNames: set<string> := {"version", "id", "added", "modified", "folded", "href", "ref"}

  predicate InVocabulary(op: WriterOp) {
    && (op.StartElement? ==> op.name in ElementNames)
    && (op.WriteAttribute? ==> op.name in AttributeNames)
  }

  ghost predicate AllInVocabulary(ops: seq<WriterOp>) {
    forall op :: op in ops ==> InVocabulary(op)
  }

  lemma VocabularyConcat(a: seq<WriterOp>, b: seq<WriterOp>)
    requires AllInVocabulary(a) && AllInVocabulary(b)
    ensures AllInVocabulary(a + b)
  {
  }

  lemma {:induction false} KeyIn(arr: seq<Entry>, k: nat)
    requires k < |arr|
    ensures arr[k].key in Keys(arr)
  {
    if k > 0 {
      KeyIn(arr[1..], k - 1);
    }
  }

  lemma AttributesVocabulary(arr: seq<Entry>)
    requires Keys(arr) <= AttributeNames
    ensures AllInVocabulary(WriteAttributes(arr))
  {
    var ops := WriteAttributes(arr);
    forall op | op in ops ensures InVocabulary(op) {
      var k :| 0 <= k < |ops| && ops[k] == op;
      KeyIn(arr, k);
    }
  }

  lemma OpeningVocabulary(n: Node, arr: seq<Entry>, start: string)
    requires n.IsNamed() && Keys(arr) <= AttributeNames && start in ElementNames
    ensures AllInVocabulary([StartElement(start)] + WriteAttributes(arr) + NamedNodeElements(n))
  {
    AttributesVocabulary(arr);
    VocabularyConcat([StartElement(start)], WriteAttributes(arr));
    VocabularyConcat([StartElement(start)] + WriteAttributes(arr), NamedNodeElements(n));
  }

  lemma {:induction false} ElementVocabulary(h: seq<Node>, i: nat)
    requires WellFormed(h) && i < |h|
    ensures AllInVocabulary(Element(h, i))
    decreases |h| - i, 1, 0
  {
    if h[i].Folder? {
      var cs := h[i].children;
      FolderOpeningVocabulary(h[i]);
      ElementsVocabulary(h, cs, i);
      VocabularyConcat(FolderOpening(h[i]), Elements(h, cs, i));
      VocabularyConcat(FolderOpening(h[i]) + Elements(h, cs, i), [EndElement]);
    } else {
      LeafVocabulary(h, i);
    }
  }

  lemma LeafVocabulary(h: seq<Node>, i: nat)
    requires WellFormed(h) && i < |h| && !h[i].Folder?
    ensures AllInVocabulary(Element(h, i))
  {
    match h[i]
    case Bookmark(_, _, _, _, _) =>
      BookmarkVocabulary(h[i]);
    case Separator =>
      assert InVocabulary(SeparatorElement[0]);
    case Alias(t) =>
      assert InVocabulary(AliasElement(h, t)[1]);
    case Null =>
  }

  lemma {:induction false} ElementsVocabulary(h: seq<Node>, cs: seq<nat>, parent: nat)
    requires WellFormed(h) && Forward(cs, parent, |h|)
    ensures AllInVocabulary(Elements(h, cs, parent))
    decreases |h| - parent, 0, |cs|
  {
    if cs != [] {
      ElementVocabulary(h, cs[0]);
      ElementsVocabulary(h, cs[1..], parent);
      VocabularyConcat(Element(h, cs[0]), Elements(h, cs[1..], parent));
    }
  }

  lemma FolderOpeningVocabulary(n: Node)
    requires n.Folder?
    ensures AllInVocabulary(FolderOpening(n))
  {
    KeysConcat(NamedNodeAttributes(n), if n.folded then [Entry("folded", Some("true"))] else []);
    OpeningVocabulary(n, FolderAttributes(n), "folder");
  }

  lemma BookmarkVocabulary(n: Node)
    requires n.Bookmark?
    ensures AllInVocabulary(BookmarkElement(n))
  {
    KeysConcat(NamedNodeAttributes(n), [Entry("href", n.href)]);
    OpeningVocabulary(n, BookmarkAttributes(n), "bookmark");
    VocabularyConcat([StartElement("bookmark")] + WriteAttributes(BookmarkAttributes(n)) + NamedNodeElements(n), [EndElement]);
  }



  /**
   * Every element and attribute written is one of the names above. In particular the
   * description is written as `description` (the XBEL element is `desc`) and a bookmark's
   * `visited` value is never written.
   */
  lemma DocumentVocabulary(h: seq<Node>, r: nat)
    requires WellFormed(h) && r < |h|
    ensures AllInVocabulary(Document(h, r))
    ensures StartElement("desc") !in Document(h, r)
    ensures forall op :: op in Document(h, r) ==> !(op.WriteAttribute? && op.name == "visited")
  {
    ElementsVocabulary(h, h[r].Children(), r);
    VocabularyConcat(Header, Elements(h, h[r].Children(), r));
    VocabularyConcat(Header + Elements(h, h[r].Children(), r), [EndElement, Flush]);
  }

  // ---------------------------------------------------------------------------------------
  // The Generator object.

  /** XBEL\Generator: the XMLWriter it owns is the list of calls made on it so far. */
  class Generator {
    var writer: seq<WriterOp>

    /**
     * `new Generator($destination)` (lib/XBEL/Generator.php:45-49): a writer opened on the
     * destination, with nothing written yet.
     */
    constructor (destination: string)
      ensures writer == []
    {
      writer := [];
    }

    method WriteAttributesOf(arr: seq<Entry>)
      modifies this
      ensures writer == old(writer) + WriteAttributes(arr)
    {
      for k := 0 to |arr|
        invariant writer == old(writer) + WriteAttributes(arr[..k])
      {
        writer := writer + [WriteAttribute(arr[k].key, arr[k].value)];
        assert arr[..k + 1] == arr[..k] + [arr[k]];
        WriteAttributesConcat(arr[..k], [arr[k]]);
      }
      assert arr[..|arr|] == arr;
    }

    method AddTextualElement(name: string, content: Str)
      modifies this
      ensures writer == old(writer) + TextualElement(name, content)
    {
      if Present(content) {
        writer := writer + [StartElement(name)];
        writer := writer + [Text(content.value)];
        writer := writer + [EndElement];
      }
    }

    method AddNamedNodeElements(n: Node)
      requires n.IsNamed()
      modifies this
      ensures writer == old(writer) + NamedNodeElements(n)
    {
      AddTextualElement("title", n.named.title);
      AddTextualElement("description", n.named.description);
    }

    /** `visitSeparator` (lib/XBEL/Generator.php:78-82). */
    method VisitSeparator()
      modifies this
      ensures writer == old(writer) + SeparatorElement
    {
      writer := writer + [StartElement("separator")];
      writer := writer + [EndElement];
    }

    /** `visitAlias` (lib/XBEL/Generator.php:87-92). */
    method VisitAlias(h: seq<Node>, i: nat)
      requires i < |h| && h[i].Alias?
      modifies this
      ensures writer == old(writer) + AliasElement(h, h[i].target)
    {
      writer := writer + [StartElement("alias")];
      writer := writer + [WriteAttribute("ref", RefOf(h, h[i].target))];
      writer := writer + [EndElement];
    }

    /** `beforeVisitingFolder` (lib/XBEL/Generator.php:97-105). */
    method BeforeVisitingFolder(h: seq<Node>, i: nat)
      requires i < |h| && h[i].Folder?
      modifies this
      ensures writer == old(writer) + FolderOpening(h[i])
    {
      var arr := if h[i].folded then [Entry("folded", Some("true"))] else [];
      arr := ArrayMerge(NamedNodeAttributes(h[i]), arr);
      assert arr == FolderAttributes(h[i]);
      writer := writer + [StartElement("folder")];
      ghost var w1 := writer;
      WriteAttributesOf(arr);
      assert writer == w1 + WriteAttributes(FolderAttributes(h[i]));
      ghost var w2 := writer;
      AddNamedNodeElements(h[i]);
      assert writer == w2 + NamedNodeElements(h[i]);
      Regroup3(old(writer), [StartElement("folder")], WriteAttributes(FolderAttributes(h[i])), NamedNodeElements(h[i]));
    }

    /** `afterVisitingFolder` (lib/XBEL/Generator.php:110-113). */
    method AfterVisitingFolder()
      modifies this
      ensures writer == old(writer) + [EndElement]
    {
      writer := writer + [EndElement];
    }

    /** `visitBookmark` (lib/XBEL/Generator.php:118-127). */
    method VisitBookmark(h: seq<Node>, i: nat)
      requires i < |h| && h[i].Bookmark?
      modifies this
      ensures writer == old(writer) + BookmarkElement(h[i])
    {
      var arr := [Entry("href", h[i].href)];
      arr := ArrayMerge(NamedNodeAttributes(h[i]), arr);
      assert arr == BookmarkAttributes(h[i]);
      writer := writer + [StartElement("bookmark")];
      ghost var w1 := writer;
      WriteAttributesOf(arr);
      assert writer == w1 + WriteAttributes(BookmarkAttributes(h[i]));
      ghost var w2 := writer;
      AddNamedNodeElements(h[i]);
      assert writer == w2 + NamedNodeElements(h[i]);
      writer := writer + [EndElement];
      Regroup(old(writer), [StartElement("bookmark")], WriteAttributes(BookmarkAttributes(h[i])), NamedNodeElements(h[i]), [EndElement]);
    }

    /** One callback; visitFolder is the inherited no-op. */
    method Dispatch(h: seq<Node>, c: Callback)
      requires Fits(h, c)
      modifies this
      ensures writer == old(writer) + OpsOf(h, c)
    {
      match c
      case BeforeVisitingFolder(i) => BeforeVisitingFolder(h, i);
      case VisitFolder(_) =>
      case AfterVisitingFolder(_) => AfterVisitingFolder();
      case VisitBookmark(i) => VisitBookmark(h, i);
      case VisitSeparator(_) => VisitSeparator();
      case VisitAlias(i) => VisitAlias(h, i);
    }

    /**
     * `process($xbel)` (lib/XBEL/Generator.php:56-73): each child of the root visits this
     * generator in turn, between the document's opening and its end.
     */
    method Process(h: seq<Node>, root: nat)
      requires WellFormed(h) && root < |h|
      modifies this
      ensures writer == old(writer) + Document(h, root)
    {
      writer := writer + [WriteDtd("xbel", None, None)];
      writer := writer + [StartElement("xbel")];
      writer := writer + [WriteAttribute("version", Some("1.0"))];
      var trace := VisitChildren(h, h[root].Children(), root);
      VisitChildrenKinds(h, h[root].Children(), root);
      EmitVisitChildren(h, h[root].Children(), root);
      assert trace[..0] == [];
      for j := 0 to |trace|
        invariant writer == old(writer) + Header + Emit(h, trace[..j])
      {
        EmitPrefix(h, trace, j);
        Dispatch(h, trace[j]);
        Assoc(old(writer) + Header, Emit(h, trace[..j]), OpsOf(h, trace[j]));
      }
      assert trace[..|trace|] == trace;
      writer := writer + [EndElement];
      writer := writer + [Flush];
      Regroup(old(writer), Header, Elements(h, h[root].Children(), root), [EndElement], [Flush]);
      assert [EndElement] + [Flush] == [EndElement, Flush];
    }
  }

  /** Extending a prefix of a trace by one callback appends that callback's calls. */
  lemma EmitPrefix(h: seq<Node>, t: seq<Callback>, j: nat)
    requires j < |t|
    ensures Emit(h, t[..j + 1]) == Emit(h, t[..j]) + OpsOf(h, t[j])
  {
    assert t[..j + 1][..j] == t[..j];
  }

  // Regrouping of concatenations. The method proofs above call these rather than assert
  // the equalities in place: asserted in place, the solver does not find them in time.

  lemma Assoc(a: seq<WriterOp>, b: seq<WriterOp>, c: seq<WriterOp>)
    ensures a + b + c == a + (b + c)
  {
  }

  lemma Regroup(w: seq<WriterOp>, a: seq<WriterOp>, b: seq<WriterOp>, c: seq<WriterOp>, d: seq<WriterOp>)
    ensures w + a + b + c + d == w + (a + b + c + d)
  {
  }

  lemma Regroup3(w: seq<WriterOp>, a: seq<WriterOp>, b: seq<WriterOp>, c: seq<WriterOp>)
    ensures w + a + b + c == w + (a + b + c)
  {
  }

  /** Writing two arrays' attributes one after the other writes their concatenation's. */
  lemma {:induction false} WriteAttributesConcat(a: seq<Entry>, b: seq<Entry>)
    ensures WriteAttributes(a + b) == WriteAttributes(a) + WriteAttributes(b)
  {
    if a == [] {
      assert a + b == b;
    } else {
      assert (a + b)[1..] == a[1..] + b;
      WriteAttributesConcat(a[1..], b);
    }
  }

  /**
   * `Generator::writeURI($xbel, $destination)` (lib/XBEL/Generator.php:35-39): what is written
   * to the destination is the document of the given tree, and it is well formed.
   */
  method WriteUri(h: seq<Node>, root: nat, destination: string) returns (written: seq<WriterOp>)
    requires WellFormed(h) && root < |h|
    ensures written == Document(h, root)
    ensures Replay(written, Writer(0, false)) == Some(Writer(0, false))
  {
    var gen := new Generator(destination);
    gen.Process(h, root);
    written := gen.writer;
    DocumentNests(h, root);
  }
}
