# ooxbelphp core in Dafny

This project models the core of the PHP XBEL library (XML Bookmark Exchange Language 1.0),
`XBEL\*` under `lib/XBEL`, and proves properties of that model. The core has these parts:

- **`XBEL\Parser`** builds a tree of `Folder`, `Bookmark`, `Separator` and `Alias` objects.
  - It works from the SAX callbacks `startElement`, `characterData`, `endElement` and
    `endDocument`.
  - It keeps three pieces of state: a stack of open folders and bookmarks, the name of the
    current element, and a map from `ID` attributes to nodes.
- **`AliasResolver`** is a visitor that `endDocument` runs over the finished tree. It replaces
  each alias's ID string with the node of that ID.
- **The visitor protocol** (`visit` on every node type, `AbstractXBELVisitor`). A folder
  calls `beforeVisitingFolder` and `visitFolder`, then visits its children in order, then
  calls `afterVisitingFolder`. Bookmarks, separators and aliases make one call each. An
  alias does not follow its target.
- **`XBEL\Generator`** is a visitor that writes the tree back out through `XMLWriter`.
- **`URLGatherer`** is a visitor that collects the `href` of every bookmark.
- **`FirefoxJson::parseJSON`** maps decoded Firefox 3 bookmark JSON onto the same nodes.

## How the model is built

- **The object graph is an arena.** PHP objects are shared by reference: a node sits at the
  same time in its parent's `children`, on the parser's stack and in the ID map. The model
  keeps every node in one `seq<Node>`, and a reference is an index into it. `Heap` is the
  mutable store the classes update in place. `Null` stands for a PHP null stored where a
  node is expected.
- **A traversal is its list of callbacks.** `Traversal.Visit` returns the ordered list of
  callbacks a `visit` makes. Each visitor (`AliasResolver`, `Generator`, `URLGatherer`) is
  a class whose `Dispatch` performs one callback. Its driving method loops over the list,
  and the loop invariant ties the object's state to a specification function of the list
  prefix seen so far.
- **The parser is modelled at two levels.**
  - `Builder.Start`, `Characters`, `End` and `Resolve` are pure state-step functions.
    `Builder.Feed` runs them over an event stream and keeps the invariant `Builder.Inv`
    after every event. The invariant says:
    - the arena is a forest under the root Folder;
    - the stack is the root plus the open `FOLDER`/`BOOKMARK` elements, each the last
      child of the one below it;
    - the ID map names the last node declared with each ID.
  - `XbelParser.Parser` is the same machine as a class updating fields in place. Each of
    its methods is proved to perform exactly the corresponding step function.
- **`XMLWriter` is a list of calls.** It is modelled as the list of calls made on it
  (`WriterOp`). `Writer`/`Replay` model the nesting discipline the writer enforces.
- **A callback fits its node.** Every callback a traversal makes names a node of the
  matching kind (`Traversal.VisitKinds`). The functions giving what one callback does to a
  visitor (`XbelGenerator.OpsOf`, `UrlGatherer.UrlOf`) are total: for a callback that does
  not fit its node, which no traversal makes, they give nothing.
- **PHP arrays are ordered entry lists.** A PHP array with string keys is a list of
  entries, so that `array_merge` keeps PHP's key order.
- **The source is followed where it differs from its documentation:**
  - A duplicate `ID` overwrites the earlier map entry.
  - An alias whose `REF` names no ID resolves to null. A second `endDocument` looks that
    null up again under `""`, PHP's array key for null (`Builder.ResolvedAgain`).
  - TITLE/DESC text is trimmed after every chunk of character data, not once per element.
    So `"a "` followed by `"b"` gives `"ab"` (`Builder.ChunkedTitle`).
  - `parseXBEL` never resolves aliases: the SAX wrapper's `parse` never calls `endDocument`
    (lib/SAX/Parser.php:156-168).
  - The resolver's traversal does not enter a bookmark's `children`. An alias placed under
    a `BOOKMARK` element is attached to the bookmark and is never resolved.
  - The generator writes:
    - a DTD whose public and system IDs are null (`$this->PUBLIC_ID` is an undefined
      property, not the class constant);
    - `description` where the parser reads `DESC`;
    - no `visited` attribute;
    - no metadata for the root folder;
    - a null `ref` for an alias that was never resolved.

## Model

| member | source | states |
|---|---|---|
| XbelNodes.NewFolder | lib/XBEL/Folder.php:17-23 | a new folder has no title, description, id, added date or children, and is not folded |
| XbelNodes.NewBookmark | lib/XBEL/Bookmark.php:17-39 | a new bookmark carries only the given href; visited, modified and the NamedNode fields are null |
| XbelNodes.NewAlias | lib/XBEL/Alias.php:15-20 | a new alias stores its target as given (the REF string) and has no children |
| Traversal.VisitOrder | lib/XBEL/Folder.php:29-37 | a folder's trace starts with beforeVisitingFolder and visitFolder for itself and ends with afterVisitingFolder; everything in between is about later-created nodes; a bookmark, separator or alias makes exactly one callback about itself |
| Traversal.VisitBalanced | lib/XBEL/Folder.php:29-37 | every before callback of a traversal is closed by the matching after callback, innermost first |
| Traversal.VisitKinds | lib/XBEL/Folder.php:29-37 | each callback of a traversal is made for a node of the matching kind |
| Traversal.VisitDistinct | lib/XBEL/Alias.php:26-35 | in a forest, a traversal makes no callback twice and names only nodes of the subtree; an alias's target is not visited through the alias |
| Builder.Attr | lib/XBEL/Parser.php:111 | reading an attribute gives its value when present and null when absent |
| Builder.Top | lib/XBEL/Parser.php:246-249 | currentElement() is the last entry of the stack: a folder or bookmark of the arena |
| Builder.Attach | lib/XBEL/Parser.php:217-221 | appending to the current element's children adds the new node's index at the end of that child list and changes no other node |
| Builder.ApplyNodeAttributes | lib/XBEL/Parser.php:164-178 | ID and ADDED are copied onto the node when present; nothing else about the node changes (kind, children, title, description, and a folder's folded flag or a bookmark's href, visited and modified) |
| Builder.RecordId | lib/XBEL/Parser.php:167-171 | a node with an ID is entered under that ID, replacing any earlier node with the same ID; without ID the map is unchanged |
| Builder.PushAndApplyNode | lib/XBEL/Parser.php:184-188 | the new node is attached to the current element and pushed on the stack |
| Builder.FolderNode | lib/XBEL/Parser.php:140-145 | the folder is folded exactly when FOLDED is "true" |
| Builder.BookmarkNode | lib/XBEL/Parser.php:150-159 | the bookmark has the given href and copies VISITED and MODIFIED when present |
| Builder.Start | lib/XBEL/Parser.php:98-122 | startElement always records the element name as current, and the stack stays non-empty |
| Builder.StartNewNode | lib/XBEL/Parser.php:140-178 | the node FOLDER or BOOKMARK pushes has no title, description or children, carries ID and ADDED when given, is folded exactly when FOLDED is "true" (folder), and copies HREF, VISITED and MODIFIED (bookmark) |
| Builder.StartEffect | lib/XBEL/Parser.php:98-122 | FOLDER and BOOKMARK attach their new node (ID and ADDED applied) under the current element and push it, recording its ID; SEPARATOR and ALIAS attach their node and leave the stack and ID map alone; any other name leaves the tree, the stack and the ID map unchanged |
| Builder.Characters | lib/XBEL/Parser.php:224-230 | characterData never changes the stack, the current element or the ID map |
| Builder.CharactersEffect | lib/XBEL/Parser.php:224-230 | inside TITLE (DESC) the current element's title (description) becomes the trim of the old text, null read as "", followed by the chunk, and nothing else about that node or any other node changes; outside TITLE and DESC the whole state is unchanged |
| Builder.End | lib/XBEL/Parser.php:233-237 | the stack loses its top exactly when FOLDER or BOOKMARK closes; nothing else changes |
| Builder.Trim | lib/XBEL/Parser.php:227 | PHP trim: the result is the input with the leading and trailing whitespace removed, and neither end of the result is whitespace |
| Builder.TrimLeft | lib/XBEL/Parser.php:227 | the result is a suffix of the input, only whitespace was removed, and it starts with a non-space |
| Builder.TrimRight | lib/XBEL/Parser.php:227 | the result is a prefix of the input, only whitespace was removed, and it ends with a non-space |
| Builder.Lookup | lib/XBEL/Parser.php:283 | the target is read under its PHP array key: an ID string under itself, null under ""; the result is that key's own entry, or null when the key is missing or the target is already a node |
| Builder.ResolveAliases | lib/XBEL/Parser.php:281-284 | each visited alias's target becomes the node its ID names (or null); every other node is unchanged |
| Builder.Resolve | lib/XBEL/Parser.php:131-135 | endDocument changes only the arena, never the stack, the ID map or the current element |
| Builder.InitInv | lib/XBEL/Parser.php:69-73 | a new parser, a lone root folder on the stack, satisfies the invariant |
| Builder.StartInv | lib/XBEL/Parser.php:98-122 | every startElement keeps the invariant, with the element's name added to the open elements |
| Builder.PushInv | lib/XBEL/Parser.php:217-221 | pushing a new folder or bookmark keeps the forest, stack and ID-map invariants |
| Builder.LeafInv | lib/XBEL/Parser.php:193-207 | attaching a separator or alias keeps the invariants without touching the stack |
| Builder.CharactersInv | lib/XBEL/Parser.php:224-230 | characterData keeps the invariant |
| Builder.EndInv | lib/XBEL/Parser.php:233-237 | endElement pops exactly for FOLDER and BOOKMARK, and the invariant holds with the element closed |
| Builder.ResolveInv | lib/XBEL/Parser.php:131-135 | resolving aliases keeps the invariant |
| Builder.Step | lib/XBEL/Parser.php:98-237 | every SAX event that closes only the innermost open element keeps the invariant |
| Builder.Feed | lib/XBEL/Parser.php:98-237 | after any well-nested event stream the invariant holds, with the open elements those the stream left open |
| Builder.CompleteDocument | lib/XBEL/Parser.php:92-95 | after a complete document the stack is the root folder alone |
| Builder.FeedUnresolved | lib/XBEL/Parser.php:81-86 | without an endDocument event every alias still holds its REF string |
| Builder.ResolvedAgain | lib/XBEL/Parser.php:281-284 | a second endDocument looks an alias the first one left null up under "": it then points at the last node declared with an empty ID, and stays null when there is none |
| Builder.ResolvedTarget | lib/XBEL/Parser.php:131-135 | after endDocument, a visited alias whose REF is declared points at the last node declared with that ID; an undeclared REF gives null |
| Builder.ChunkedTitle | lib/XBEL/Parser.php:227 | title text "a " then "b" yields "ab": trimming happens per chunk |
| XbelParser.AliasResolver.constructor | lib/XBEL/Parser.php:272-275 | the resolver keeps the ID map it is given |
| XbelParser.AliasResolver.VisitAlias | lib/XBEL/Parser.php:281-284 | the alias's target is replaced in place by the map's node for it, or null |
| XbelParser.AliasResolver.Dispatch | lib/XBEL/Parser.php:261-285 | only visitAlias changes anything; the other callbacks are no-ops |
| XbelParser.ResolveSnoc | lib/XBEL/Parser.php:281-284 | one more visitAlias resolves only the alias it names; any other callback changes nothing |
| XbelParser.AliasResolver.Run | lib/XBEL/Parser.php:133-134 | visiting the root with the resolver yields exactly ResolveAliases over the root's traversal |
| XbelParser.Parser.constructor | lib/XBEL/Parser.php:69-73 | a fresh parser's state is the initial state: one root folder on the stack, no ID map, no current element |
| XbelParser.Parser.CurrentElement | lib/XBEL/Parser.php:246-249 | currentElement() is the stack top |
| XbelParser.Parser.GetRoot | lib/XBEL/Parser.php:92-95 | getRoot() is the bottom of the stack, the root folder |
| XbelParser.Parser.AppendToCurrent | lib/XBEL/Parser.php:219 | the new node is appended to the current element's children in place |
| XbelParser.Parser.ApplyNodeAttributesTo | lib/XBEL/Parser.php:164-178 | the node's ID and ADDED are set in place and the ID map updated; the stack is untouched |
| XbelParser.Parser.PushAndApplyNode | lib/XBEL/Parser.php:184-188 | the in-place update equals Builder.PushAndApplyNode on the parser's state |
| XbelParser.Parser.FolderElement | lib/XBEL/Parser.php:140-145 | folder() equals pushing FolderNode |
| XbelParser.Parser.BookmarkElement | lib/XBEL/Parser.php:150-159 | bookmark() equals pushing BookmarkNode |
| XbelParser.Parser.LeafElement | lib/XBEL/Parser.php:193-207 | separator() and alias() attach the node to the current element without pushing |
| XbelParser.Parser.StartElement | lib/XBEL/Parser.php:98-122 | the in-place update equals Builder.Start, and the parser stays valid |
| XbelParser.Parser.SwitchOnName | lib/XBEL/Parser.php:100-121 | recording the element name and dispatching on it (FOLDER, BOOKMARK, SEPARATOR, ALIAS, anything else ignored) updates the parser exactly as Builder.Start |
| XbelParser.Parser.CharacterData | lib/XBEL/Parser.php:224-230 | the in-place update equals Builder.Characters |
| XbelParser.Parser.EndElement | lib/XBEL/Parser.php:233-237 | the in-place update equals Builder.End |
| XbelParser.Parser.EndDocument | lib/XBEL/Parser.php:131-135 | the in-place update equals Builder.Resolve |
| XbelParser.Parser.Handle | lib/XBEL/Parser.php:98-237 | each SAX event performs its step function and the parser stays valid |
| XbelParser.ParseXbel | lib/XBEL/Parser.php:81-86 | parsing a document returns the root folder of the state Feed describes, with every alias unresolved |
| XbelGenerator.ArrayMerge | lib/XBEL/Generator.php:101 | array_merge of arrays with disjoint keys is their concatenation |
| XbelGenerator.MergeLookup | lib/XBEL/Generator.php:121 | after array_merge a key reads the second array's value if it has one, else the first's |
| XbelGenerator.IfPresent | lib/XBEL/Generator.php:149-151 | an attribute is added only when its value is neither null nor "" |
| XbelGenerator.NamedNodeAttributes | lib/XBEL/Generator.php:146-153 | id, added and modified appear exactly when set and non-empty (modified only for bookmarks); no other key |
| XbelGenerator.NamedNodeAttributesOrder | lib/XBEL/Generator.php:146-153 | each key is set at most once, and the keys come in the order id, added, modified |
| XbelGenerator.FolderAttributes | lib/XBEL/Generator.php:99-101 | a folder's attributes are the named-node ones followed by folded="true" when folded |
| XbelGenerator.BookmarkAttributes | lib/XBEL/Generator.php:120-121 | a bookmark's attributes are the named-node ones followed by href |
| XbelGenerator.WriteAttributes | lib/XBEL/Generator.php:177-181 | one writeAttribute per entry, in array order |
| XbelGenerator.WriteAttributesConcat | lib/XBEL/Generator.php:177-181 | writing the attributes of two arrays one after the other makes the same calls as writing those of their concatenation |
| XbelGenerator.TextualElement | lib/XBEL/Generator.php:162-170 | a non-empty content gives start, text, end; null or "" gives nothing |
| XbelGenerator.RefOf | lib/XBEL/Generator.php:90 | an alias resolved to a folder or bookmark writes that node's id as its ref; an unresolved or null target gives a null ref |
| XbelGenerator.EmitVisit | lib/XBEL/Generator.php:78-127 | the generator's output for a node's traversal is that node's element, children nested inside folders |
| XbelGenerator.ReplayElement | lib/XBEL/Generator.php:78-127 | each element the generator writes closes everything it opens |
| XbelGenerator.DocumentNests | lib/XBEL/Generator.php:56-73 | the whole output is a balanced document: every element is closed and attributes follow start tags |
| XbelGenerator.ElementVocabulary | lib/XBEL/Generator.php:78-138 | the elements and attributes written come from the fixed XBEL set the generator uses |
| XbelGenerator.DocumentVocabulary | lib/XBEL/Generator.php:137 | the output never contains a `desc` element nor a `visited` attribute |
| XbelGenerator.Generator.constructor | lib/XBEL/Generator.php:45-49 | a new generator has written nothing |
| XbelGenerator.Generator.WriteAttributesOf | lib/XBEL/Generator.php:177-181 | the loop writes exactly WriteAttributes of the array |
| XbelGenerator.Generator.AddTextualElement | lib/XBEL/Generator.php:162-170 | appends exactly TextualElement |
| XbelGenerator.Generator.AddNamedNodeElements | lib/XBEL/Generator.php:134-138 | appends the title element then the description element |
| XbelGenerator.Generator.VisitSeparator | lib/XBEL/Generator.php:78-82 | appends an empty separator element |
| XbelGenerator.Generator.VisitAlias | lib/XBEL/Generator.php:87-92 | appends an alias element whose ref is the target's id |
| XbelGenerator.Generator.BeforeVisitingFolder | lib/XBEL/Generator.php:97-105 | appends the folder start tag, its merged attributes, title and description |
| XbelGenerator.Generator.AfterVisitingFolder | lib/XBEL/Generator.php:110-113 | appends the folder's end tag |
| XbelGenerator.Generator.VisitBookmark | lib/XBEL/Generator.php:118-127 | appends a whole bookmark element with merged attributes, title and description |
| XbelGenerator.Generator.Dispatch | lib/XBEL/Generator.php:78-127 | each callback appends its own calls; visitFolder appends nothing |
| XbelGenerator.Generator.Process | lib/XBEL/Generator.php:56-73 | the writer receives the DTD, the xbel element with the root's children's elements, the end tag and a flush |
| XbelGenerator.WriteUri | lib/XBEL/Generator.php:35-39 | what is written is the document of the tree, and it is balanced |
| UrlGatherer.UrlOf | lib/UrlGatherer.php:27-30 | only visitBookmark adds a url, its bookmark's href |
| UrlGatherer.BookmarksOf | lib/UrlGatherer.php:27-30 | every node listed is one the trace calls visitBookmark for |
| UrlGatherer.UrlsAreBookmarkHrefs | lib/UrlGatherer.php:27-30 | the urls are the hrefs of the visited bookmarks, one each and in order |
| UrlGatherer.BookmarksDistinct | lib/UrlGatherer.php:27-30 | a trace that repeats no callback lists no bookmark twice |
| UrlGatherer.URLGatherer.constructor | lib/UrlGatherer.php:11 | a gatherer starts with no urls |
| UrlGatherer.URLGatherer.VisitBookmark | lib/UrlGatherer.php:27-30 | the bookmark's href is appended to urls |
| UrlGatherer.URLGatherer.Dispatch | lib/UrlGatherer.php:8 | every other callback is the inherited no-op |
| UrlGatherer.Gather | lib/UrlGatherer.php:19-24 | a fresh gatherer visiting the node returns exactly the urls of its traversal |
| UrlGatherer.GatherBookmark | lib/UrlGatherer.php:19-30 | gathering a lone bookmark returns a one-element list holding its href |
| UrlGatherer.GatherLeaf | lib/UrlGatherer.php:8 | separators and aliases contribute nothing, so a bookmark reached through an alias is not gathered again |
| UrlGatherer.GatherFolder | lib/XBEL/Folder.php:29-37 | a folder contributes its children's urls and none of its own |
| UrlGatherer.GatherChildren | lib/XBEL/Folder.php:34-35 | children's urls come child after child, in document order |
| UrlGatherer.GatheredBookmarks | lib/UrlGatherer.php:19-30 | in a forest, the gathered urls are the hrefs of distinct bookmarks of the subtree, in document order |
| FirefoxJson.ContainerFolder | lib/XBEL/Converters/FirefoxJson.php:36-39 | a container becomes an unfolded folder with only its title and the converted children |
| FirefoxJson.PlaceBookmark | lib/XBEL/Converters/FirefoxJson.php:43-44 | a place becomes a bookmark with href = uri and its title, nothing else |
| FirefoxJson.ParseJson | lib/XBEL/Converters/FirefoxJson.php:31-51 | the returned node is the next one allocated and no earlier node is changed |
| FirefoxJson.ParseChildren | lib/XBEL/Converters/FirefoxJson.php:38-39 | one child per JSON child, all newly allocated, earlier nodes unchanged |
| FirefoxJson.ParseJsonRepresents | lib/XBEL/Converters/FirefoxJson.php:31-51 | container to Folder with the children converted in count and order, place to Bookmark, separator to Separator, any other type to null |
| FirefoxJson.ParseChildrenRepresent | lib/XBEL/Converters/FirefoxJson.php:38-39 | the folder's children are the conversions of the JSON children, in order |
| FirefoxJson.ParseJsonPlain | lib/XBEL/Converters/FirefoxJson.php:35-48 | converted nodes never get a description, id, added, visited, modified or folded |
| FirefoxJson.ParseJsonShape | lib/XBEL/Converters/FirefoxJson.php:33-51 | the result stays tree-shaped, and no null is created exactly when every type is known |
| FirefoxJson.ParseJsonWellFormed | lib/XBEL/Converters/FirefoxJson.php:33-51 | the converted tree can be visited exactly when every JSON object has one of the three known types |
| FirefoxJson.GatherConverted | lib/XBEL/Converters/FirefoxJson.php:31-51 | gathering the urls of a converted tree lists the JSON places' uris in document order |

## Left out

- The SAX wrapper (lib/SAX/Parser.php) is not part of this model. Events come in as a
  sequence. Not modelled:
  - file reading in chunks;
  - the `die` on an expat error;
  - `parseString` (it passes an undefined variable);
  - `startDocument`.

  Expat reports only well-nested streams. `Builder.Feed`, `XbelParser.ParseXbel` and
  `XbelParser.Parser.EndElement` demand this of their input. `XbelParser.ParseXbel` also
  demands a stream without `EndDocument`, because `parse` never calls `endDocument`.
- Traversals are modelled only for arenas that hold no null and whose child links point
  forward, to nodes created later (`XbelNodes.WellFormed`). Such arenas have no cycles.
  `Folder::visit` recurses without end on a folder that is its own descendant. Every tree
  the parser builds is of this kind (`Builder.Feed`). The Firefox converter's tree is of this
  kind exactly when every JSON type is known (`FirefoxJson.ParseJsonWellFormed`). Trees
  assembled by hand with cycles are not modelled.
- Builder.Lookup: an alias whose target is already a node (`NodeRef(Some _)`) reads as
  null. PHP 8 raises a TypeError instead, because an object is not a valid array key. Only a
  second `endDocument` on the same parser reaches this case, and `parse` calls none.
- Expat's upper-casing of names is taken as given: events already carry upper-case names.
- Builder.Start: its own contract states only that the current element is recorded. What it
  does to the tree, the stack and the ID map is stated by `Builder.StartEffect`.
- NamedNodeAttributes: its own contract states which keys appear and their values. That
  each appears once, in the order id, added, modified, is stated by
  `XbelGenerator.NamedNodeAttributesOrder`.
- XbelGenerator.ArrayMerge: states its result only for disjoint keys (the only case the
  generator meets). `XbelGenerator.MergeLookup` states what a key reads in general.
- `XMLWriter` internals are not modelled: `openURI`, escaping, indentation and the bytes
  written. The model is the list of calls; `Writer` models only its nesting rule.
- PHP notices on undefined properties and missing array keys are not modelled. Those reads
  give null in the model.
- PHP arrays with numeric-string keys are not modelled: PHP renumbers them on
  `array_merge`, and the keys the generator merges are never numeric.
- `FirefoxJson::parseFile` is not modelled: file I/O and `json_decode`. A JSON object comes
  in as a `Json` value. A missing `children` property reads as no children. Non-string values
  of `type` are not modelled: `type` is a string or null. PHP's `switch` compares loosely,
  so `true` would match the first case.
- A folder's or bookmark's attributes given twice in one tag are not modelled, because
  expat rejects them.
