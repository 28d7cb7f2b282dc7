/** ParsedDocument: what a parse hands to the editor and the preview, built in one pass
    over the top-level nodes. */
module ParsedDocument {
  import opened Strings
  import opened MarkdownTag
  import opened MarkdownNode
  import opened Outline
  import opened Sequences

  /** The HTML page, the outline entries and the root node holding the top-level nodes. */
  datatype Document = Document(html: string, outline: seq<OutlineElement>, rootNode: Node)

  /** The page around the body: a viewport that does not zoom and the stylesheet. */
  const HtmlHead: string :=
    "<html>\n<meta name=\"viewport\" content=\"user-scalable=no\">\n<head>\n<link rel=\"stylesheet\" href=\"Stylesheet.css\">\n</head>\n<body>\n"
  const HtmlTail: string := "\n</body></html>"

  // ---------------------------------------------------------------------------
  // The outline, as a function of the top-level nodes

  /** The classification a top-level node gives the outline: its tag's, if it has one. */
  function Representation(n: Node): Option<OutlineRepresentation> {
    if n.tag.Some? then n.tag.value.outlineRepresentation else None
  }

  /** The level of the last heading among the first `i` nodes, and 0 when there is none. */
  function LastHeadingLevel(nodes: seq<Node>, i: nat): int
    requires i <= |nodes|
  {
    if i == 0 then 0
    else
      var r := Representation(nodes[i - 1]);
      if r.Some? && r.value.Heading? then r.value.level
      else LastHeadingLevel(nodes, i - 1)
  }

  /** The entry of a classified top-level node, given the level of the last heading before
      it: the range starts one character before the node's position and spans its length,
      the text is the content trimmed of whitespace and newlines, and the indentation is
      one less than a heading's own level (never negative) or, for anything else, the
      previous heading's level. */
  function Entry(n: Node, lastHeadingLevel: int): OutlineElement
    requires Representation(n).Some?
  {
    var r := Representation(n).value;
    OutlineElement(
      r,
      Range(n.position - 1, Length(n)),
      Trim(n.textContent, WhitespacesAndNewlines),
      if r.Heading? then (if r.level - 1 > 0 then r.level - 1 else 0) else lastHeadingLevel,
      n.identifier)
  }

  /** What the closure handed to compactMap returns for the `k`th node: its entry if it is
      classified, given the last heading level of the nodes before it, else nothing. */
  function Contribution(nodes: seq<Node>, k: nat): Option<OutlineElement>
    requires k < |nodes|
  {
    if Representation(nodes[k]).Some? then Some(Entry(nodes[k], LastHeadingLevel(nodes, k))) else None
  }

  function Contributions(nodes: seq<Node>): seq<Option<OutlineElement>> {
    seq(|nodes|, k requires 0 <= k < |nodes| => Contribution(nodes, k))
  }

  /** compactMap: the present values, in order. */
  function CompactMap<T>(cs: seq<Option<T>>): seq<T> {
    if |cs| == 0 then []
    else CompactMap(cs[..|cs| - 1]) + (if cs[|cs| - 1].Some? then [cs[|cs| - 1].value] else [])
  }

  /** The outline of a list of top-level nodes. */
  function OutlineOf(nodes: seq<Node>): seq<OutlineElement> {
    CompactMap(Contributions(nodes))
  }

  /** textContent(): the full texts of the root's children, joined. */
  function TextContent(doc: Document): string {
    ConcatFullTexts(doc.rootNode.children)
  }

  // ---------------------------------------------------------------------------
  // The initializer

  /** init(nodes:): one pass over the nodes that appends each node's HTML and, for a
      classified node, an outline entry while it tracks the last heading level; then the
      HTML page around the body and a fresh root text node holding the nodes. */
  method BuildDocument(nodes: seq<Node>, rootId: nat, resolveImage: string -> string) returns (d: Document)
    ensures d.html == HtmlHead + HtmlOfNodes(nodes, resolveImage) + HtmlTail
    ensures d.outline == OutlineOf(nodes)
    ensures d.rootNode == NewTextNode("", 0, rootId).(children := nodes)
  {
    var innerHTML := "";
    var lastHeadingLevel := 0;
    var outline: seq<OutlineElement> := [];
    var i := 0;
    while i < |nodes|
      invariant i <= |nodes|
      invariant innerHTML == HtmlOfNodes(nodes[..i], resolveImage)
      invariant outline == CompactMap(Contributions(nodes)[..i])
      invariant lastHeadingLevel == LastHeadingLevel(nodes, i)
    {
      var nodeHtml := HtmlString(nodes[i], resolveImage);
      PassStep(nodes, i, resolveImage);
      innerHTML := innerHTML + nodeHtml;
      outline, lastHeadingLevel := AppendEntry(outline, lastHeadingLevel, nodes[i]);
      i := i + 1;
    }
    TakeAll(nodes);
    TakeAll(Contributions(nodes));
    d := Document(HtmlHead + innerHTML + HtmlTail, outline, NewTextNode("", 0, rootId).(children := nodes));
  }

  /** The body of the compactMap closure after the HTML: a classified node adds its entry
      and a heading becomes the last heading. */
  method AppendEntry(outline: seq<OutlineElement>, lastHeadingLevel: int, node: Node)
    returns (outline': seq<OutlineElement>, lastHeadingLevel': int)
    ensures outline' == outline + (if Representation(node).Some? then [Entry(node, lastHeadingLevel)] else [])
    ensures lastHeadingLevel' ==
      (if Representation(node).Some? && Representation(node).value.Heading? then Representation(node).value.level
       else lastHeadingLevel)
  {
    outline', lastHeadingLevel' := outline, lastHeadingLevel;
    if node.tag.Some? && node.tag.value.outlineRepresentation.Some? {
      var entry;
      entry, lastHeadingLevel' := EntryOf(node, node.tag.value.outlineRepresentation.value, lastHeadingLevel);
      outline' := outline + [entry];
    }
  }

  /** The outline element the closure returns for a classified node, and the last heading
      level after it. */
  method EntryOf(node: Node, representation: OutlineRepresentation, lastHeadingLevel: int)
    returns (entry: OutlineElement, lastHeadingLevel': int)
    requires Representation(node) == Some(representation)
    ensures entry == Entry(node, lastHeadingLevel)
    ensures lastHeadingLevel' == if representation.Heading? then representation.level else lastHeadingLevel
  {
    var range := Range(node.position - 1, Length(node));
    var text := Trim(node.textContent, WhitespacesAndNewlines);
    var indentationLevel := lastHeadingLevel;
    lastHeadingLevel' := lastHeadingLevel;
    if representation.Heading? {
      indentationLevel := if representation.level - 1 > 0 then representation.level - 1 else 0;
      lastHeadingLevel' := representation.level;
    }
    entry := OutlineElement(representation, range, text, indentationLevel, node.identifier);
  }

  /** One more node in the pass: the HTML and the outline of the first i + 1 nodes, from
      those of the first i. */
  lemma PassStep(nodes: seq<Node>, i: nat, resolveImage: string -> string)
    requires i < |nodes|
    ensures HtmlOfNodes(nodes[..i + 1], resolveImage) == HtmlOfNodes(nodes[..i], resolveImage) + Html(nodes[i], resolveImage)
    ensures CompactMap(Contributions(nodes)[..i + 1]) ==
      CompactMap(Contributions(nodes)[..i]) + (if Contribution(nodes, i).Some? then [Contribution(nodes, i).value] else [])
  {
    TakeTake(nodes, i, i + 1);
    var cs := Contributions(nodes);
    TakeTake(cs, i, i + 1);
  }
}
