/**
 * `XBEL\Converters\FirefoxJson::parseJSON` (lib/XBEL/Converters/FirefoxJson.php:31-51): the
 * objects `json_decode` makes of a Firefox 3 bookmark backup, mapped onto XBEL nodes.
 *
 * Every `new` allocates the next index of the node arena, so the conversion threads the arena
 * through the recursion: a container's Folder is allocated before its children are
 * converted, and its child list is filled in afterwards.
 */
module FirefoxJson {
  import opened XbelNodes
  import opened Traversal
  import opened UrlGatherer

  /**
   * A decoded JSON bookmark object. A property the object lacks reads as null; a container
   * without `children` iterates over nothing.
   */
  datatype Json = Json(kind: Str, title: Str, uri: Str, children: seq<Json>)

  const PlaceContainer: string := "text/x-moz-place-container"
  const Place: string := "text/x-moz-place"
  const PlaceSeparator: string := "text/x-moz-place-separator"

  /** The Folder a container becomes: `new Folder()` with its title and children set. */
  function ContainerFolder(title: Str, cs: seq<nat>): (n: Node)
    ensures n.Folder? && n.named == Unnamed.(title := title) && !n.folded && n.children == cs
  {
    Folder(Unnamed.(title := title), false, cs)
  }

  /** The Bookmark a place becomes: `new Bookmark($json->uri)` with the title set. */
  function PlaceBookmark(uri: Str, title: Str): (n: Node)
    ensures n.Bookmark? && n.href == uri && n.named == Unnamed.(title := title)
    ensures n.visited == None && n.modified == None && n.children == []
  {
    Bookmark(Unnamed.(title := title), uri, None, None, [])
  }

  /**
   * `parseJSON($json)` on the arena `h`: the arena afterwards and the index of the node
   * returned. An object of any other type returns null, which the arena holds as `Null`.
   */
  function ParseJson(j: Json, h: seq<Node>): (r: (seq<Node>, nat))
    ensures r.1 == |h| < |r.0| && r.0[..|h|] == h
    decreases j, 1
  {
    if j.kind == Some(PlaceContainer) then
      var (h', cs) := ParseChildren(j.children, h + [NewFolder()]);
      (h'[|h| := ContainerFolder(j.title, cs)], |h|)
    else if j.kind == Some(Place) then
      (h + [PlaceBookmark(j.uri, j.title)], |h|)
    else if j.kind == Some(PlaceSeparator) then
      (h + [Separator], |h|)
    else
      (h + [Null], |h|)
  }

  /** `foreach ($json->children as $child) $node->children[] = parseJSON($child)`. */
  function ParseChildren(js: seq<Json>, h: seq<Node>): (r: (seq<Node>, seq<nat>))
    ensures |r.1| == |js| && |h| <= |r.0| && r.0[..|h|] == h
    ensures forall k :: 0 <= k < |js| ==> |h| <= r.1[k] < |r.0|
    decreases js, 0
  {
    if js == [] then (h, [])
    else
      var (h1, c) := ParseJson(js[0], h);
      var (h2, cs) := ParseChildren(js[1..], h1);
      assert h2[..|h|] == h by {
        assert h2[..|h1|][..|h|] == h2[..|h|];
      }
      (h2, [c] + cs)
  }

  /**
   * The node at `i` of `h`, with the nodes it reaches, is the conversion of `j`: a container
   * is a Folder with its title and one child per JSON child, in order; a place a Bookmark
   * with its uri and title; a separator a Separator; anything else null.
   */
  ghost predicate Represents(h: seq<Node>, i: nat, j: Json)
    decreases j
  {
    && i < |h|
    && if j.kind == Some(PlaceContainer) then
         && h[i] == ContainerFolder(j.title, h[i].Children())
         && |h[i].children| == |j.children|
         && Forward(h[i].children, i, |h|)
         && forall k :: 0 <= k < |j.children| ==> Represents(h, h[i].children[k], j.children[k])
       else if j.kind == Some(Place) then h[i] == PlaceBookmark(j.uri, j.title)
       else if j.kind == Some(PlaceSeparator) then h[i] == Separator
       else h[i] == Null
  }

  /** What the node at `i` represents depends only on the nodes from `i` on. */
  lemma {:induction false} RepresentsFrame(h: seq<Node>, h': seq<Node>, i: nat, j: Json)
    requires Represents(h, i, j) && |h| <= |h'|
    requires forall k :: i <= k < |h| ==> h'[k] == h[k]
    ensures Represents(h', i, j)
    decreases j
  {
    if j.kind == Some(PlaceContainer) {
      var cs := h[i].children;
      forall k | 0 <= k < |j.children| ensures Represents(h', cs[k], j.children[k]) {
        RepresentsFrame(h, h', cs[k], j.children[k]);
      }
    }
  }

  /** parseJSON returns the conversion of its argument. */
  lemma {:induction false} ParseJsonRepresents(j: Json, h: seq<Node>)
    ensures Represents(ParseJson(j, h).0, |h|, j)
    decreases j, 1
  {
    if j.kind == Some(PlaceContainer) {
      var h1 := h + [NewFolder()];
      var (h2, cs) := ParseChildren(j.children, h1);
      ParseChildrenRepresent(j.children, h1);
      var h3 := h2[|h| := ContainerFolder(j.title, cs)];
      assert ParseJson(j, h).0 == h3;
      forall k | 0 <= k < |j.children| ensures Represents(h3, cs[k], j.children[k]) {
        RepresentsFrame(h2, h3, cs[k], j.children[k]);
      }
    }
  }

  /** The child list holds the children's conversions, in order. */
  lemma {:induction false} ParseChildrenRepresent(js: seq<Json>, h: seq<Node>)
    ensures var r := ParseChildren(js, h);
      forall k :: 0 <= k < |js| ==> Represents(r.0, r.1[k], js[k])
    decreases js, 0
  {
    if js != [] {
      var (h1, c) := ParseJson(js[0], h);
      ParseJsonRepresents(js[0], h);
      var (h2, cs) := ParseChildren(js[1..], h1);
      ParseChildrenRepresent(js[1..], h1);
      assert forall k :: 0 <= k < |h1| ==> h2[k] == h2[..|h1|][k];
      RepresentsFrame(h1, h2, c, js[0]);
      var r := ParseChildren(js, h);
      assert r.1 == [c] + cs && r.0 == h2;
      forall k | 0 <= k < |js| ensures Represents(r.0, r.1[k], js[k]) {
        if k > 0 {
          assert r.1[k] == cs[k - 1] && js[k] == js[1..][k - 1];
        }
      }
    }
  }

  /** A node no conversion ever decorates: no description, id, `added`, `visited`, `modified` or fold. */
  predicate Plain(n: Node) {
    && (n.IsNamed() ==> n.named.description == None && n.named.id == None && n.named.added == None)
    && (n.Folder? ==> !n.folded)
    && (n.Bookmark? ==> n.visited == None && n.modified == None)
  }

  ghost predicate PlainFrom(h: seq<Node>, lo: nat) {
    forall k :: lo <= k < |h| ==> Plain(h[k])
  }

  /** Every node parseJSON creates is plain. */
  lemma {:induction false} ParseJsonPlain(j: Json, h: seq<Node>)
    ensures PlainFrom(ParseJson(j, h).0, |h|)
    decreases j, 1
  {
    if j.kind == Some(PlaceContainer) {
      var h1 := h + [NewFolder()];
      ParseChildrenPlain(j.children, h1);
    }
  }

  lemma {:induction false} ParseChildrenPlain(js: seq<Json>, h: seq<Node>)
    ensures PlainFrom(ParseChildren(js, h).0, |h|)
    decreases js, 0
  {
    if js != [] {
      var (h1, c) := ParseJson(js[0], h);
      ParseJsonPlain(js[0], h);
      var (h2, cs) := ParseChildren(js[1..], h1);
      ParseChildrenPlain(js[1..], h1);
      assert forall k :: 0 <= k < |h1| ==> h2[k] == h2[..|h1|][k];
    }
  }

  /** Every object of the tree has one of the three types parseJSON knows. */
  ghost predicate Known(j: Json)
    decreases j
  {
    && (j.kind == Some(PlaceContainer) || j.kind == Some(Place) || j.kind == Some(PlaceSeparator))
    && (j.kind == Some(PlaceContainer) ==> forall k :: 0 <= k < |j.children| ==> Known(j.children[k]))
  }

  ghost predicate NoNullFrom(h: seq<Node>, lo: nat) {
    forall k :: lo <= k < |h| ==> !h[k].Null?
  }

  lemma {:induction false} ParseJsonShape(j: Json, h: seq<Node>)
    requires TreeShaped(h)
    ensures TreeShaped(ParseJson(j, h).0)
    ensures NoNullFrom(ParseJson(j, h).0, |h|) <==> Known(j)
    decreases j, 1
  {
    var r := ParseJson(j, h);
    if j.kind == Some(PlaceContainer) {
      var h1 := h + [NewFolder()];
      assert TreeShaped(h1) by {
        forall i | 0 <= i < |h1| ensures Forward(h1[i].Children(), i, |h1|) {
          if i < |h| {
            assert h1[i] == h[i];
          }
        }
      }
      var (h2, cs) := ParseChildren(j.children, h1);
      ParseChildrenShape(j.children, h1);
      assert Forward(cs, |h|, |h2|);
      var h3 := h2[|h| := ContainerFolder(j.title, cs)];
      assert r.0 == h3;
      forall i | 0 <= i < |h3| ensures Forward(h3[i].Children(), i, |h3|) {
        if i != |h| {
          assert h3[i] == h2[i];
        }
      }
      assert NoNullFrom(h3, |h|) <==> NoNullFrom(h2, |h1|) by {
        assert forall k :: |h1| <= k < |h3| ==> h3[k] == h2[k];
      }
    } else {
      assert r.0 == h + [r.0[|h|]];
      forall i | 0 <= i < |r.0| ensures Forward(r.0[i].Children(), i, |r.0|) {
        if i < |h| {
          assert r.0[i] == h[i];
        }
      }
      assert NoNullFrom(r.0, |h|) <==> !r.0[|h|].Null?;
    }
  }

  lemma {:induction false} ParseChildrenShape(js: seq<Json>, h: seq<Node>)
    requires TreeShaped(h)
    ensures TreeShaped(ParseChildren(js, h).0)
    ensures NoNullFrom(ParseChildren(js, h).0, |h|) <==> forall k :: 0 <= k < |js| ==> Known(js[k])
    decreases js, 0
  {
    if js != [] {
      var (h1, c) := ParseJson(js[0], h);
      ParseJsonShape(js[0], h);
      var (h2, cs) := ParseChildren(js[1..], h1);
      ParseChildrenShape(js[1..], h1);
      assert forall k :: 0 <= k < |h1| ==> h2[k] == h2[..|h1|][k] == h1[k];
      assert NoNullFrom(h2, |h|) <==> NoNullFrom(h1, |h|) && NoNullFrom(h2, |h1|);
      assert (forall k :: 0 <= k < |js| ==> Known(js[k])) <==>
        Known(js[0]) && forall k :: 0 <= k < |js[1..]| ==> Known(js[1..][k]) by {
        assert forall k :: 0 < k < |js| ==> js[k] == js[1..][k - 1];
      }
    }
  }

  /**
   * The converted tree can be visited (no null sits where Folder::visit would call a method on
   * it) exactly when every object in the JSON has a known type.
   */
  lemma ParseJsonWellFormed(j: Json, h: seq<Node>)
    requires WellFormed(h)
    ensures WellFormed(ParseJson(j, h).0) <==> Known(j)
  {
    ParseJsonShape(j, h);
    var r := ParseJson(j, h);
    assert forall k :: 0 <= k < |h| ==> r.0[k] == r.0[..|h|][k];
  }

  /** The uris of the places of a JSON tree, in document order. */
  function Uris(j: Json): seq<Str>
    decreases j, 1
  {
    if j.kind == Some(PlaceContainer) then UrisAll(j.children)
    else if j.kind == Some(Place) then [j.uri]
    else []
  }

  function UrisAll(js: seq<Json>): seq<Str>
    decreases js, 0
  {
    if js == [] then [] else Uris(js[0]) + UrisAll(js[1..])
  }

  /**
   * `URLGatherer::gather(FirefoxJson::parseJSON($json))` lists the uris of the JSON's places
   * in document order.
   */
  lemma {:induction false} GatherConverted(h: seq<Node>, i: nat, j: Json)
    requires WellFormed(h) && Represents(h, i, j)
    ensures Gathered(h, i) == Uris(j)
    decreases j, 1
  {
    if j.kind == Some(PlaceContainer) {
      GatherFolder(h, i);
      GatherConvertedChildren(h, h[i].children, i, j.children);
    } else if j.kind == Some(Place) {
      GatherBookmark(h, i);
    } else if j.kind == Some(PlaceSeparator) {
      GatherLeaf(h, i);
    } else {
      assert false;
    }
  }

  lemma {:induction false} GatherConvertedChildren(h: seq<Node>, cs: seq<nat>, parent: nat, js: seq<Json>)
    requires WellFormed(h) && Forward(cs, parent, |h|) && |cs| == |js|
    requires forall k :: 0 <= k < |js| ==> Represents(h, cs[k], js[k])
    ensures Urls(h, VisitChildren(h, cs, parent)) == UrisAll(js)
    decreases js, 0
  {
    if js == [] {
      assert VisitChildren(h, cs, parent) == [];
    } else {
      var cs', js' := cs[1..], js[1..];
      assert Represents(h, cs[0], js[0]);
      forall k | 0 <= k < |js'| ensures Represents(h, cs'[k], js'[k]) {
        assert cs'[k] == cs[k + 1] && js'[k] == js[k + 1];
      }
      GatherChildren(h, cs, parent);
      GatherConverted(h, cs[0], js[0]);
      GatherConvertedChildren(h, cs', parent, js');
    }
  }
}
