/** The node tree: text and tag nodes with their source positions, the text and HTML
    they stand for, lookup by identifier and the three structural edits. */
module MarkdownNode {
  import opened Strings
  import opened MarkdownTag
  import opened Sequences

  /** A node of the parsed tree. A text node has no tag; a tag node keeps the raw text
      between its delimiters in `textContent` and, unless its tag forbids nesting, the
      parse of that text as `children`. `position` is an offset in the parsed text. */
  datatype Node = Node(
    tag: Option<Tag>,
    position: int,
    identifier: nat,
    textContent: string,
    children: seq<Node>)

  // ---------------------------------------------------------------------------
  // Construction

  /** init(tag:beginningAt:): a tag node with no content yet and a fresh identifier. */
  function NewTagNode(tag: Tag, position: int, identifier: nat): (n: Node)
    ensures n.tag == Some(tag) && n.position == position && n.identifier == identifier
    ensures n.textContent == "" && n.children == []
  {
    Node(Some(tag), position, identifier, "", [])
  }

  /** init(text:beginningAt:): a childless text node with a fresh identifier. */
  function NewTextNode(text: string, position: int, identifier: nat): (n: Node)
    ensures n.tag.None? && n.position == position && n.identifier == identifier
    ensures n.textContent == text && n.children == []
  {
    Node(None, position, identifier, text, [])
  }

  // ---------------------------------------------------------------------------
  // Text reconstruction

  /** The markup the node stands for: open delimiter, content and the close delimiter
      with its newlines trimmed. */
  function FullText(n: Node): string {
    if n.tag.Some? then
      n.tag.value.openMarkdown + n.textContent + Trim(n.tag.value.closeMarkdown, Newlines)
    else n.textContent
  }

  /** length: the content length plus the open delimiter and the trimmed close delimiter. */
  function Length(n: Node): (r: nat)
    ensures r == |FullText(n)|
  {
    var length := |n.textContent|;
    if n.tag.Some? then
      length + |n.tag.value.openMarkdown| + |Trim(n.tag.value.closeMarkdown, Newlines)|
    else length
  }

  /** The concatenated full text of a node list, in order. */
  function ConcatFullTexts(nodes: seq<Node>): string {
    if |nodes| == 0 then "" else ConcatFullTexts(nodes[..|nodes| - 1]) + FullText(nodes[|nodes| - 1])
  }

  lemma {:induction false} ConcatFullTextsAppend(a: seq<Node>, b: seq<Node>)
    ensures ConcatFullTexts(a + b) == ConcatFullTexts(a) + ConcatFullTexts(b)
  {
    if |b| > 0 {
      assert (a + b)[..|a + b| - 1] == a + b[..|b| - 1];
      ConcatFullTextsAppend(a, b[..|b| - 1]);
    } else {
      assert a + b == a;
    }
  }

  /** Node lists whose members have the same full texts, slot by slot, concatenate alike. */
  lemma {:induction false} ConcatFullTextsPointwise(a: seq<Node>, b: seq<Node>)
    requires |a| == |b| && forall j :: 0 <= j < |a| ==> FullText(a[j]) == FullText(b[j])
    ensures ConcatFullTexts(a) == ConcatFullTexts(b)
  {
    if |a| > 0 {
      ConcatFullTextsPointwise(a[..|a| - 1], b[..|b| - 1]);
    }
  }

  // ---------------------------------------------------------------------------
  // HTML

  /** htmlString(): a childless node renders its content trimmed of newlines with `<` and
      `>` escaped, otherwise the concatenated HTML of its children; a tag node then hands
      that to its tag's generator. */
  function Html(n: Node, resolveImage: string -> string): string
    decreases n
  {
    var inner :=
      if |n.children| == 0 then Escape(Trim(n.textContent, Newlines))
      else HtmlOfNodes(n.children, resolveImage);
    if n.tag.Some? then GenerateHtml(n.tag.value, inner, resolveImage) else inner
  }

  /** The concatenated HTML of a node list, in order. */
  function HtmlOfNodes(nodes: seq<Node>, resolveImage: string -> string): string
    decreases nodes
  {
    if |nodes| == 0 then ""
    else HtmlOfNodes(nodes[..|nodes| - 1], resolveImage) + Html(nodes[|nodes| - 1], resolveImage)
  }

  /** htmlString() as the source computes it. */
  method HtmlString(n: Node, resolveImage: string -> string) returns (html: string)
    ensures html == Html(n, resolveImage)
    decreases n, 1
  {
    if |n.children| == 0 {
      html := Escape(Trim(n.textContent, Newlines));
    } else {
      html := ChildrenHtml(n, resolveImage);
    }
    if n.tag.Some? {
      html := GenerateHtml(n.tag.value, html, resolveImage);
    }
  }

  /** The loop of htmlString() that appends each child's HTML in order. */
  method ChildrenHtml(n: Node, resolveImage: string -> string) returns (html: string)
    ensures html == HtmlOfNodes(n.children, resolveImage)
    decreases n, 0
  {
    html := "";
    var i := 0;
    while i < |n.children|
      invariant 0 <= i <= |n.children|
      invariant html == HtmlOfNodes(n.children[..i], resolveImage)
    {
      var childHtml := HtmlString(n.children[i], resolveImage);
      TakeTake(n.children, i, i + 1);
      html := html + childHtml;
      i := i + 1;
    }
    TakeAll(n.children);
  }

  /** No tag node anywhere in the subtree. */
  predicate Untagged(n: Node)
    decreases n
  {
    n.tag.None? && forall i :: 0 <= i < |n.children| ==> Untagged(n.children[i])
  }

  /** A subtree without tag nodes renders with no angle bracket at all: every `<` and
      `>` of its text reaches the HTML escaped. */
  lemma {:induction false} UntaggedHtmlHasNoMarkup(n: Node, resolveImage: string -> string)
    requires Untagged(n)
    ensures '<' !in Html(n, resolveImage) && '>' !in Html(n, resolveImage)
    decreases n, 1
  {
    if |n.children| > 0 {
      UntaggedListHtmlHasNoMarkup(n.children, resolveImage);
    }
  }

  lemma {:induction false} UntaggedListHtmlHasNoMarkup(nodes: seq<Node>, resolveImage: string -> string)
    requires forall i :: 0 <= i < |nodes| ==> Untagged(nodes[i])
    ensures '<' !in HtmlOfNodes(nodes, resolveImage) && '>' !in HtmlOfNodes(nodes, resolveImage)
    decreases nodes, 0
  {
    if |nodes| > 0 {
      UntaggedListHtmlHasNoMarkup(nodes[..|nodes| - 1], resolveImage);
      UntaggedHtmlHasNoMarkup(nodes[|nodes| - 1], resolveImage);
    }
  }

  // ---------------------------------------------------------------------------
  // Lookup

  /** The parent of a found node, as the path of child indices from the node searched,
      and the found node's index among that parent's children (LookupResult). */
  datatype Lookup = Lookup(parentPath: seq<nat>, index: nat)

  predicate ValidPath(n: Node, path: seq<nat>)
    decreases |path|
  {
    |path| == 0 || (path[0] < |n.children| && ValidPath(n.children[path[0]], path[1..]))
  }

  function SubtreeAt(n: Node, path: seq<nat>): Node
    requires ValidPath(n, path)
    decreases |path|
  {
    if |path| == 0 then n else SubtreeAt(n.children[path[0]], path[1..])
  }

  /** The index of the first node of `nodes` with the given identifier. */
  function IndexOfId(nodes: seq<Node>, id: nat): (r: Option<nat>)
    ensures r.Some? ==> (r.value < |nodes| && nodes[r.value].identifier == id &&
      forall j :: 0 <= j < r.value ==> nodes[j].identifier != id)
    ensures r.None? ==> forall j :: 0 <= j < |nodes| ==> nodes[j].identifier != id
  {
    if |nodes| == 0 then None
    else if nodes[0].identifier == id then Some(0)
    else match IndexOfId(nodes[1..], id)
      case None => None
      case Some(k) => Some(k + 1)
  }

  /** Some descendant of `n` (not `n` itself) carries the identifier. */
  predicate HasDescendant(n: Node, id: nat)
    decreases n
  {
    exists i :: 0 <= i < |n.children| && (n.children[i].identifier == id || HasDescendant(n.children[i], id))
  }

  /** findDescendant(withIdentifier:): the direct children first, then each child's
      subtree in order; the result names a child that carries the identifier. */
  function FindSpec(n: Node, id: nat): (r: Option<Lookup>)
    ensures r.Some? ==> (ValidPath(n, r.value.parentPath) &&
      r.value.index < |SubtreeAt(n, r.value.parentPath).children| &&
      SubtreeAt(n, r.value.parentPath).children[r.value.index].identifier == id)
    ensures IndexOfId(n.children, id).Some? ==> r == Some(Lookup([], IndexOfId(n.children, id).value))
    decreases n, |n.children| + 1
  {
    match IndexOfId(n.children, id)
    case Some(i) => Some(Lookup([], i))
    case None => FindInSubtrees(n, 0, id)
  }

  /** The first hit among the subtrees of the children from index `k` on. */
  function FindInSubtrees(n: Node, k: nat, id: nat): (r: Option<Lookup>)
    ensures r.Some? ==> (ValidPath(n, r.value.parentPath) && |r.value.parentPath| > 0 &&
      k <= r.value.parentPath[0] &&
      r.value.index < |SubtreeAt(n, r.value.parentPath).children| &&
      SubtreeAt(n, r.value.parentPath).children[r.value.index].identifier == id)
    decreases n, |n.children| - k
  {
    if k >= |n.children| then None
    else match FindSpec(n.children[k], id)
      case Some(l) =>
        var path := [k] + l.parentPath;
        assert path[1..] == l.parentPath;
        Some(Lookup(path, l.index))
      case None => FindInSubtrees(n, k + 1, id)
  }

  /** The lookup succeeds exactly when some descendant carries the identifier. */
  lemma {:induction false} FindSpecComplete(n: Node, id: nat)
    ensures FindSpec(n, id).Some? <==> HasDescendant(n, id)
    decreases n, |n.children| + 1
  {
    if IndexOfId(n.children, id).None? {
      FindInSubtreesComplete(n, 0, id);
    }
  }

  lemma {:induction false} FindInSubtreesComplete(n: Node, k: nat, id: nat)
    requires forall j :: 0 <= j < |n.children| ==> n.children[j].identifier != id
    ensures FindInSubtrees(n, k, id).Some? <==>
      exists i :: k <= i < |n.children| && HasDescendant(n.children[i], id)
    decreases n, |n.children| - k
  {
    if k < |n.children| {
      FindSpecComplete(n.children[k], id);
      FindInSubtreesComplete(n, k + 1, id);
    }
  }

  /** findDescendant(withIdentifier:) as the source runs it: a loop over the children's
      identifiers, then a loop over their subtrees that stops at the first hit. */
  method FindDescendant(n: Node, id: nat) returns (r: Option<Lookup>)
    ensures r == FindSpec(n, id)
    decreases n
  {
    var index := 0;
    while index < |n.children|
      invariant 0 <= index <= |n.children|
      invariant forall j :: 0 <= j < index ==> n.children[j].identifier != id
    {
      if n.children[index].identifier == id {
        return Some(Lookup([], index));
      }
      index := index + 1;
    }
    r := None;
    var k := 0;
    while k < |n.children|
      invariant 0 <= k <= |n.children|
      invariant FindInSubtrees(n, k, id) == FindInSubtrees(n, 0, id)
      invariant r == None
    {
      var found := FindDescendant(n.children[k], id);
      if found.Some? {
        var path := [k] + found.value.parentPath;
        assert path[1..] == found.value.parentPath;
        r := Some(Lookup(path, found.value.index));
        return;
      }
      k := k + 1;
    }
  }

  // ---------------------------------------------------------------------------
  // Editing

  /** remove(at:): drops the element at `i` and keeps the others in order. */
  function RemoveAt(s: seq<Node>, i: nat): (r: seq<Node>)
    requires i < |s|
    ensures |r| == |s| - 1
    ensures forall j :: 0 <= j < i ==> r[j] == s[j]
    ensures forall j :: i <= j < |r| ==> r[j] == s[j + 1]
  {
    s[..i] + s[i + 1..]
  }

  /** insert(contentsOf:at:): puts `xs` before the element at `i`. */
  function InsertAt(s: seq<Node>, i: nat, xs: seq<Node>): (r: seq<Node>)
    requires i <= |s|
    ensures |r| == |s| + |xs|
    ensures forall j :: 0 <= j < i ==> r[j] == s[j]
    ensures forall j :: 0 <= j < |xs| ==> r[i + j] == xs[j]
    ensures forall j :: i <= j < |s| ==> r[j + |xs|] == s[j]
  {
    s[..i] + xs + s[i..]
  }

  /** `b` is `a` where only the children list at the end of `path` may differ: every node
      on the path keeps its tag, position, identifier and content, and every sibling off
      the path is the same. */
  predicate SameExceptAlong(a: Node, b: Node, path: seq<nat>)
    decreases |path|
  {
    a.tag == b.tag && a.position == b.position && a.identifier == b.identifier &&
    a.textContent == b.textContent &&
    (|path| == 0 ||
      (|a.children| == |b.children| && path[0] < |a.children| &&
       (forall j :: 0 <= j < |a.children| && j != path[0] ==> a.children[j] == b.children[j]) &&
       SameExceptAlong(a.children[path[0]], b.children[path[0]], path[1..])))
  }

  /** Replaces the children list at the end of `path` (the in-place mutation of the
      found parent, as a value). */
  function ReplaceChildren(n: Node, path: seq<nat>, kids: seq<Node>): (r: Node)
    requires ValidPath(n, path)
    ensures ValidPath(r, path) && SubtreeAt(r, path).children == kids
    ensures SameExceptAlong(n, r, path)
    decreases |path|
  {
    if |path| == 0 then n.(children := kids)
    else
      var child := ReplaceChildren(n.children[path[0]], path[1..], kids);
      var r := n.(children := n.children[path[0] := child]);
      assert r.children[path[0]] == child;
      r
  }

  /** An edit below the top level leaves the text of the top-level nodes as it was: a
      tag node's full text comes from its content, not from its children. */
  lemma NestedEditKeepsText(n: Node, path: seq<nat>, kids: seq<Node>)
    requires ValidPath(n, path) && |path| > 0
    ensures ConcatFullTexts(ReplaceChildren(n, path, kids).children) == ConcatFullTexts(n.children)
  {
    var r := ReplaceChildren(n, path, kids);
    assert SameExceptAlong(n, r, path);
    assert SameExceptAlong(n.children[path[0]], r.children[path[0]], path[1..]);
    ConcatFullTextsPointwise(n.children, r.children);
  }

  /** The tree after an edit, and the next unused identifier. */
  datatype Edited = Edited(root: Node, nextId: nat)

  /** deleteDescendant(withIdentifier:): removes the found child from its parent. */
  function DeleteDescendant(root: Node, id: nat): (r: Node)
    ensures FindSpec(root, id).None? ==> r == root
    ensures FindSpec(root, id).Some? ==>
      var l := FindSpec(root, id).value;
      var before := SubtreeAt(root, l.parentPath).children;
      ValidPath(r, l.parentPath) &&
      SubtreeAt(r, l.parentPath).children == RemoveAt(before, l.index) &&
      SameExceptAlong(root, r, l.parentPath)
  {
    match FindSpec(root, id)
    case None => root
    case Some(l) =>
      var parent := SubtreeAt(root, l.parentPath);
      ReplaceChildren(root, l.parentPath, RemoveAt(parent.children, l.index))
  }

  /** The two text nodes duplicateDescendant inserts after `original`: a newline at the
      original's end and a copy of its full text right after it. */
  function DuplicateNodes(original: Node, nextId: nat): (r: seq<Node>)
    ensures |r| == 2
    ensures r[0] == NewTextNode("\n", original.position + |FullText(original)|, nextId)
    ensures r[1] == NewTextNode(FullText(original), original.position + |FullText(original)| + 1, nextId + 1)
  {
    var position := original.position + |FullText(original)|;
    [NewTextNode("\n", position, nextId), NewTextNode(FullText(original), position + 1, nextId + 1)]
  }

  /** duplicateDescendant(withIdentifier:): inserts a newline node and a text copy of the
      found node's full text immediately after it, using two fresh identifiers. */
  function DuplicateDescendant(root: Node, id: nat, nextId: nat): (r: Edited)
    ensures FindSpec(root, id).None? ==> r == Edited(root, nextId)
    ensures FindSpec(root, id).Some? ==>
      var l := FindSpec(root, id).value;
      var before := SubtreeAt(root, l.parentPath).children;
      r.nextId == nextId + 2 &&
      ValidPath(r.root, l.parentPath) &&
      SubtreeAt(r.root, l.parentPath).children ==
        InsertAt(before, l.index + 1, DuplicateNodes(before[l.index], nextId)) &&
      SameExceptAlong(root, r.root, l.parentPath)
  {
    match FindSpec(root, id)
    case None => Edited(root, nextId)
    case Some(l) =>
      var parent := SubtreeAt(root, l.parentPath);
      var original := parent.children[l.index];
      var kids := InsertAt(parent.children, l.index + 1, DuplicateNodes(original, nextId));
      Edited(ReplaceChildren(root, l.parentPath, kids), nextId + 2)
  }

  /** The node swapTagOfNode puts in place of `found`: childless, at the same position,
      carrying `tag` and either the old full text or the old content. */
  function SwapReplacement(found: Node, tag: Tag, nextId: nat): (r: Node)
    ensures r.tag == Some(tag) && r.position == found.position && r.identifier == nextId
    ensures r.children == []
    ensures Has(tag.options, WrapsOtherTagsWhenSwappedIn) ==> r.textContent == FullText(found)
    ensures !Has(tag.options, WrapsOtherTagsWhenSwappedIn) ==> r.textContent == found.textContent
  {
    var replacement := NewTagNode(tag, found.position, nextId);
    if Has(tag.options, WrapsOtherTagsWhenSwappedIn) then replacement.(textContent := FullText(found))
    else replacement.(textContent := found.textContent)
  }

  /** swapTagOfNode(withIdentifier:with:): replaces the found node, in the same slot, by a
      fresh childless node carrying the new tag. */
  function SwapTagOfNode(root: Node, id: nat, tag: Tag, nextId: nat): (r: Edited)
    ensures FindSpec(root, id).None? ==> r == Edited(root, nextId)
    ensures FindSpec(root, id).Some? ==>
      var l := FindSpec(root, id).value;
      var before := SubtreeAt(root, l.parentPath).children;
      r.nextId == nextId + 1 &&
      ValidPath(r.root, l.parentPath) &&
      SubtreeAt(r.root, l.parentPath).children ==
        before[l.index := SwapReplacement(before[l.index], tag, nextId)] &&
      SameExceptAlong(root, r.root, l.parentPath)
  {
    match FindSpec(root, id)
    case None => Edited(root, nextId)
    case Some(l) =>
      var parent := SubtreeAt(root, l.parentPath);
      var found := parent.children[l.index];
      var replacement := SwapReplacement(found, tag, nextId);
      var kids := InsertAt(RemoveAt(parent.children, l.index), l.index, [replacement]);
      assert kids == parent.children[l.index := replacement];
      Edited(ReplaceChildren(root, l.parentPath, kids), nextId + 1)
  }

  // ---------------------------------------------------------------------------
  // What the edits do to the text of the top-level nodes

  /** Deleting a top-level node removes exactly its full text from the document text;
      deleting a nested node changes none of it. */
  lemma DeleteText(root: Node, id: nat)
    requires FindSpec(root, id).Some?
    ensures var l := FindSpec(root, id).value;
      var after := ConcatFullTexts(DeleteDescendant(root, id).children);
      if l.parentPath == [] then
        after == ConcatFullTexts(root.children[..l.index]) + ConcatFullTexts(root.children[l.index + 1..])
      else after == ConcatFullTexts(root.children)
  {
    var l := FindSpec(root, id).value;
    var parent := SubtreeAt(root, l.parentPath);
    if l.parentPath == [] {
      ConcatFullTextsAppend(root.children[..l.index], root.children[l.index + 1..]);
    } else {
      NestedEditKeepsText(root, l.parentPath, RemoveAt(parent.children, l.index));
    }
  }

  /** Duplicating a top-level node inserts a newline and a second copy of its full text
      right after it; duplicating a nested node changes none of the top-level text. */
  lemma DuplicateText(root: Node, id: nat, nextId: nat)
    requires FindSpec(root, id).Some?
    ensures var l := FindSpec(root, id).value;
      var after := ConcatFullTexts(DuplicateDescendant(root, id, nextId).root.children);
      if l.parentPath == [] then
        after == ConcatFullTexts(root.children[..l.index + 1]) + "\n" +
                 FullText(root.children[l.index]) + ConcatFullTexts(root.children[l.index + 1..])
      else after == ConcatFullTexts(root.children)
  {
    var l := FindSpec(root, id).value;
    var parent := SubtreeAt(root, l.parentPath);
    var copies := DuplicateNodes(parent.children[l.index], nextId);
    if l.parentPath == [] {
      InsertedText(root.children, l.index + 1, copies);
      CopiesText(parent.children[l.index], nextId);
      Regroup(ConcatFullTexts(root.children[..l.index + 1]), "\n", FullText(root.children[l.index]),
              ConcatFullTexts(root.children[l.index + 1..]));
    } else {
      NestedEditKeepsText(root, l.parentPath, InsertAt(parent.children, l.index + 1, copies));
    }
  }

  lemma InsertedText(s: seq<Node>, i: nat, xs: seq<Node>)
    requires i <= |s|
    ensures ConcatFullTexts(InsertAt(s, i, xs)) == ConcatFullTexts(s[..i]) + ConcatFullTexts(xs) + ConcatFullTexts(s[i..])
  {
    ConcatFullTextsAppend(s[..i] + xs, s[i..]);
    ConcatFullTextsAppend(s[..i], xs);
  }

  /** The two nodes a duplication inserts spell a newline and the original's full text. */
  lemma CopiesText(original: Node, nextId: nat)
    ensures ConcatFullTexts(DuplicateNodes(original, nextId)) == "\n" + FullText(original)
  {
    var copies := DuplicateNodes(original, nextId);
    assert copies[..1] == [copies[0]];
    assert ConcatFullTexts(copies[..1]) == "\n";
  }

  lemma Regroup(a: string, b: string, c: string, d: string)
    ensures a + (b + c) + d == a + b + c + d
  {
  }

  /** Swapping the tag of a top-level node replaces its full text by the replacement's;
      swapping a nested node changes none of the top-level text. */
  lemma SwapText(root: Node, id: nat, tag: Tag, nextId: nat)
    requires FindSpec(root, id).Some?
    ensures var l := FindSpec(root, id).value;
      var after := ConcatFullTexts(SwapTagOfNode(root, id, tag, nextId).root.children);
      if l.parentPath == [] then
        after == ConcatFullTexts(root.children[..l.index]) +
                 FullText(SwapReplacement(root.children[l.index], tag, nextId)) +
                 ConcatFullTexts(root.children[l.index + 1..])
      else after == ConcatFullTexts(root.children)
  {
    var l := FindSpec(root, id).value;
    var parent := SubtreeAt(root, l.parentPath);
    var replacement := SwapReplacement(parent.children[l.index], tag, nextId);
    var kids := parent.children[l.index := replacement];
    if l.parentPath == [] {
      var s := root.children;
      var i := l.index;
      assert kids == s[..i] + [replacement] + s[i + 1..];
      ConcatFullTextsAppend(s[..i] + [replacement], s[i + 1..]);
      ConcatFullTextsAppend(s[..i], [replacement]);
    } else {
      NestedEditKeepsText(root, l.parentPath, kids);
    }
  }

  /** Swapping any node to a comment wraps its whole markup: the replacement's full text
      is "<!--", the old full text, then "-->". */
  lemma SwapToCommentWrapsMarkup(found: Node, nextId: nat)
    ensures FullText(SwapReplacement(found, Comment(), nextId)) == "<!--" + FullText(found) + "-->"
  {
    CloseKeptWhole(Comment().closeMarkdown);
  }

  /** Swapping a node to a heading keeps only its old content: the replacement's full
      text is the hash marks then that content, and the heading's newline is trimmed away. */
  lemma SwapToHeadingKeepsContent(found: Node, level: nat, nextId: nat)
    ensures FullText(SwapReplacement(found, HeadingTag(level), nextId)) ==
      HeadingTag(level).openMarkdown + found.textContent
  {
    TrimsAway(HeadingTag(level).closeMarkdown);
  }

  lemma CloseKeptWhole(close: string)
    requires close == "-->"
    ensures Trim(close, Newlines) == close
  {
    TrimUnchanged(close, Newlines);
  }

  lemma TrimsAway(close: string)
    requires close == "\n"
    ensures Trim(close, Newlines) == ""
  {
    TrimAllRemoved(close, Newlines);
  }
}
