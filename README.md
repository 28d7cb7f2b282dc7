# Markdown engine of DesktopClassMarkdownEditor, in Dafny

The editor turns the text of a Markdown document into three things: an HTML page for the preview, an outline of headings and code blocks, and a tree of nodes that the outline's editing commands change. This project models that engine:

- the tag grammar (`MarkdownTag`);
- the recursive scanner that splits a text into text runs and tag nodes (`Parser.textParsedAsNodes` and `Parser.find`);
- the document builder that makes the page and the outline in one pass (`ParsedDocument.init`);
- the node tree, with its text reconstruction, HTML rendering, lookup by identifier and its three edits (`MarkdownNode`);
- the outline values and how they print (`Outline.swift`).

The Dafny modules follow the Swift files:

| module | file | models |
|---|---|---|
| `Strings` | `strings.dfy` | the Foundation string operations the engine calls: `contains`, `hasPrefix`, `firstIndex(of:)`, `prefix(_:)`, `trimmingCharacters(in:)` with the two character sets it uses, the `<`/`>` escaping, `lowercased()` on ASCII letters, and `Int` interpolation |
| `Sequences` | `sequences.dfy` | generic facts about slicing sequences |
| `MarkdownTag` | `markdown_tag.dfy` | `MarkdownTag`: the struct, `Options`, `Language`, `init`, `generateHTML`, `apply(to:)` and the static tags; the transformer closures become the datatype `Transformer`, rendered by `Transform` |
| `MarkdownNode` | `markdown_node.dfy` | `MarkdownNode`: both initializers, `length`, `fullText`, `htmlString`, `findDescendant`, `deleteDescendant`, `duplicateDescendant`, `swapTagOfNode` |
| `ParsedDocument` | `document.dfy` | `ParsedDocument`: `init(nodes:)` as an imperative pass, `textContent()`, and the outline as a function of the nodes |
| `MarkdownParser` | `parser.dfy` | `Parser`: the tag catalog, the scanner written twice (once as functions over a scan state, once as the imperative `while`/`for` loops of the source, proved equal), and `find` written the same two ways |
| `ScannerProperties` | `scanner_properties.dfy` | what the scanner promises about its nodes, for any catalog of well-formed tags |
| `DocumentProperties` | `document_properties.dfy` | what the document promises about its outline and its text |
| `EditProperties` | `edit_properties.dfy` | the node identifiers under parsing and the three edits |
| `Outline` | `outline.dfy` | `OutlineElement`, `NSRange`, and the two `debugDescription`s |

Conventions of the model:

- Text is `seq<char>`, and an index into it counts characters.
- Identifiers are natural numbers drawn from a counter. Each operation that creates nodes takes the next unused identifier and returns the next unused one after it.
- Image sources that do not start with `http` are resolved to a local file URL by a function passed in as `resolveImage`.
- Nodes are values. An edit returns the whole new tree. `SameExceptAlong` states that nothing changes off the path to the edited parent.

Two behaviours of the code worth stating:

- **Code-block indentation.** A code block is indented by the *level* of the nearest heading before it, not by that heading's indentation (Parser.swift:34, :38). So under a level-2 heading, whose own indentation is 1, a code block is indented 2. `Entry`, `CodeBlockUnderHeading` and `CodeBlockBeforeHeadings` state what the code does.
- **The one-character shift of outline ranges.** The code subtracts 1 from a node's position (Parser.swift:31-32). Its comment says this is because a newline was added to the start of the document. The editor, however, parses the editor's text as it is (EditorViewController.swift:354). The model states both readings:
  - `EntrySpans`: for any text, the range shifted forward by one character covers exactly the node's markup;
  - `LeadingNewlineRanges`: for a text that starts with `"\n"`, the range itself covers the node's markup in the text after that newline.

## Model

| member | source | states |
|---|---|---|
| `Strings.FirstIndexOf` | DesktopClassMarkdownEditor/DesktopClassMarkdownEditor/Markdown/MarkdownTag.swift:98 | the result is the index of the first occurrence of the character, and None exactly when it does not occur |
| `Strings.Prefix` | DesktopClassMarkdownEditor/DesktopClassMarkdownEditor/Markdown/Outline.swift:19 | `prefix(20)`: a prefix of the string with exactly 20 characters, or the whole string when it is shorter |
| `Strings.Trim` | DesktopClassMarkdownEditor/DesktopClassMarkdownEditor/Markdown/MarkdownNode.swift:57 | the result is a slice of the input: only characters of the class are removed, and only at the two ends; a non-empty result neither starts nor ends with such a character |
| `Strings.TrimUnchanged` | DesktopClassMarkdownEditor/DesktopClassMarkdownEditor/Markdown/MarkdownNode.swift:57 | a string with no character of the class trims to itself |
| `Strings.TrimAllRemoved` | DesktopClassMarkdownEditor/DesktopClassMarkdownEditor/Markdown/MarkdownNode.swift:57 | a string made only of characters of the class trims to the empty string |
| `Strings.Escape` | DesktopClassMarkdownEditor/DesktopClassMarkdownEditor/Markdown/MarkdownNode.swift:36-37 | the escaped text contains no `<` and no `>` |
| `Strings.EscapeConcat` | DesktopClassMarkdownEditor/DesktopClassMarkdownEditor/Markdown/MarkdownNode.swift:36-37 | escaping works piece by piece: the escaped concatenation is the concatenation of the escaped pieces |
| `Strings.EscapeChar` | DesktopClassMarkdownEditor/DesktopClassMarkdownEditor/Markdown/MarkdownNode.swift:36-37 | `<` escapes to `&lt;`, `>` to `&gt;`, and every other character to itself; with `EscapeConcat` this fixes the escaped text of every string |
| `Strings.EscapeUnchanged` | DesktopClassMarkdownEditor/DesktopClassMarkdownEditor/Markdown/MarkdownNode.swift:36-37 | text without angle brackets passes through escaping unchanged |
| `Strings.Lowercased` | DesktopClassMarkdownEditor/DesktopClassMarkdownEditor/Markdown/MarkdownTag.swift:159 | same length; each character is lowercased one by one |
| `Strings.IntToString` | DesktopClassMarkdownEditor/DesktopClassMarkdownEditor/Markdown/Outline.swift:30 | non-empty; it starts with a minus sign exactly for a negative number |
| `Strings.IntToStringInjective` | DesktopClassMarkdownEditor/DesktopClassMarkdownEditor/Markdown/Outline.swift:19-30 | distinct integers print differently |
| `MarkdownTag.OptionBitsIndependent` | DesktopClassMarkdownEditor/DesktopClassMarkdownEditor/Markdown/MarkdownTag.swift:11-18 | the four options are the bits 1, 2, 4 and 16; no option contains another; the empty set contains only the empty option |
| `MarkdownTag.Union` | DesktopClassMarkdownEditor/DesktopClassMarkdownEditor/Markdown/MarkdownTag.swift:147 | the option-set literal `[a, b]` is the bitwise or of the two raw values, so it contains both `a` and `b` |
| `MarkdownTag.MakeTag` | DesktopClassMarkdownEditor/DesktopClassMarkdownEditor/Markdown/MarkdownTag.swift:59-78 | the mid delimiter defaults to `""`; the close delimiter defaults to the open one; every other field is stored as given |
| `MarkdownTag.GenerateHtml` | DesktopClassMarkdownEditor/DesktopClassMarkdownEditor/Markdown/MarkdownTag.swift:80-86 | the transformer, when there is one, supersedes `htmlTag`; without one the text is wrapped in `<htmlTag>` … `</htmlTag>` |
| `MarkdownTag.Apply` | DesktopClassMarkdownEditor/DesktopClassMarkdownEditor/Markdown/MarkdownTag.swift:88-94 | the result is open+text+mid+close with adjustment \|open\|; for a block tag, open and close are each padded with newlines and the adjustment is \|open\|+2; in both cases the adjustment is where the text now starts, so the moved selection covers the same characters |
| `MarkdownTag.SplitPoint` | DesktopClassMarkdownEditor/DesktopClassMarkdownEditor/Markdown/MarkdownTag.swift:98 | a link or image is split exactly when the content contains the mid delimiter and a `]`; it splits at the first `]` |
| `MarkdownTag.Link` | DesktopClassMarkdownEditor/DesktopClassMarkdownEditor/Markdown/MarkdownTag.swift:96-106 | `[` … `](` … `)` with no options, rendered by the anchor transformer |
| `MarkdownTag.Image` | DesktopClassMarkdownEditor/DesktopClassMarkdownEditor/Markdown/MarkdownTag.swift:108-124 | `![` … `](` … `)`, no nesting, rendered by the image transformer |
| `MarkdownTag.Bold` | DesktopClassMarkdownEditor/DesktopClassMarkdownEditor/Markdown/MarkdownTag.swift:126-128 | `**` around, element `strong`, no newlines inside |
| `MarkdownTag.Italicize` | DesktopClassMarkdownEditor/DesktopClassMarkdownEditor/Markdown/MarkdownTag.swift:130-132 | `_` around, element `em`, no newlines inside |
| `MarkdownTag.Underline` | DesktopClassMarkdownEditor/DesktopClassMarkdownEditor/Markdown/MarkdownTag.swift:134-136 | `<u>` … `</u>`, element `u`, no options |
| `MarkdownTag.Strikethrough` | DesktopClassMarkdownEditor/DesktopClassMarkdownEditor/Markdown/MarkdownTag.swift:138-140 | `~~` around, element `strike`, no options |
| `MarkdownTag.BlockQuote` | DesktopClassMarkdownEditor/DesktopClassMarkdownEditor/Markdown/MarkdownTag.swift:142-144 | `>` up to a newline, element `blockquote`, a block tag |
| `MarkdownTag.Comment` | DesktopClassMarkdownEditor/DesktopClassMarkdownEditor/Markdown/MarkdownTag.swift:146-150 | `<!--` … `-->`; it disallows nesting and wraps other tags when swapped in, and has neither other option; pass-through rendering; no outline entry |
| `MarkdownTag.HeadingTag` | DesktopClassMarkdownEditor/DesktopClassMarkdownEditor/Markdown/MarkdownTag.swift:152-155 | `level` hash marks up to a newline, element `H<level>`, no options, outline `.heading(level)` |
| `MarkdownTag.CodeBlockTag` | DesktopClassMarkdownEditor/DesktopClassMarkdownEditor/Markdown/MarkdownTag.swift:157-164 | a fence of three backticks plus the lowercased language name (nothing when unspecified), closed by three backticks; no nesting; a block tag; outline `.codeBlock(language)` |
| `MarkdownTag.CodeBlockFence` | DesktopClassMarkdownEditor/DesktopClassMarkdownEditor/Markdown/MarkdownTag.swift:157-161 | the fences are exactly "```swift", "```objective-c" and "```" |
| `MarkdownTag.CommentHtml` | DesktopClassMarkdownEditor/DesktopClassMarkdownEditor/Markdown/MarkdownTag.swift:146-150 | any content of a comment renders as `<!--` content `-->` |
| `MarkdownTag.LinkHtml` | DesktopClassMarkdownEditor/DesktopClassMarkdownEditor/Markdown/MarkdownTag.swift:96-105 | when the split exists, the link renders as an anchor: the text is the content before the first `]`, and the URL is the content two characters after it, which are in bounds; otherwise `[` + content + `)` verbatim |
| `MarkdownTag.ImageHtml` | DesktopClassMarkdownEditor/DesktopClassMarkdownEditor/Markdown/MarkdownTag.swift:108-124 | when the split exists, the image renders as a paragraph holding an `img` element: the alt text is before the first `]`, and the source is after it, resolved locally unless it starts with `http`; otherwise `![` + content + `)` verbatim |
| `MarkdownTag.FirstBracketBeforeMid` | DesktopClassMarkdownEditor/DesktopClassMarkdownEditor/Markdown/MarkdownTag.swift:98-100 | in content that contains `](`, the first `]` leaves room for the two characters the URL skips |
| `MarkdownNode.NewTagNode` | DesktopClassMarkdownEditor/DesktopClassMarkdownEditor/Markdown/MarkdownNode.swift:19-23 | the tag and position given, a fresh identifier, empty content and no children |
| `MarkdownNode.NewTextNode` | DesktopClassMarkdownEditor/DesktopClassMarkdownEditor/Markdown/MarkdownNode.swift:25-30 | no tag, the text and position given, a fresh identifier and no children |
| `MarkdownNode.Length` | DesktopClassMarkdownEditor/DesktopClassMarkdownEditor/Markdown/MarkdownNode.swift:52-69 | `length` equals the number of characters of `fullText` |
| `MarkdownNode.ConcatFullTextsAppend` | DesktopClassMarkdownEditor/DesktopClassMarkdownEditor/Markdown/Parser.swift:58 | the joined full texts of two lists, one after the other, are the two joins concatenated |
| `MarkdownNode.HtmlString` | DesktopClassMarkdownEditor/DesktopClassMarkdownEditor/Markdown/MarkdownNode.swift:32-50 | the method's result is `Html`: a childless node gives its escaped, newline-trimmed content; otherwise its children's HTML joined in order; a tag node then passes that through its tag's `generateHTML` |
| `MarkdownNode.ChildrenHtml` | DesktopClassMarkdownEditor/DesktopClassMarkdownEditor/Markdown/MarkdownNode.swift:40-42 | the `forEach` loop appends the children's HTML in order |
| `MarkdownNode.UntaggedHtmlHasNoMarkup` | DesktopClassMarkdownEditor/DesktopClassMarkdownEditor/Markdown/MarkdownNode.swift:32-50 | a subtree without tag nodes renders with no `<` or `>` at all |
| `MarkdownNode.IndexOfId` | DesktopClassMarkdownEditor/DesktopClassMarkdownEditor/Markdown/MarkdownNode.swift:112-116 | the first direct child carrying the identifier, or None when no direct child does |
| `MarkdownNode.FindSpec` | DesktopClassMarkdownEditor/DesktopClassMarkdownEditor/Markdown/MarkdownNode.swift:111-128 | a result names a parent reachable from the node and an index whose child carries the identifier; a direct child is found before any deeper node |
| `MarkdownNode.FindSpecComplete` | DesktopClassMarkdownEditor/DesktopClassMarkdownEditor/Markdown/MarkdownNode.swift:111-128 | the lookup finds something exactly when some descendant carries the identifier |
| `MarkdownNode.FindDescendant` | DesktopClassMarkdownEditor/DesktopClassMarkdownEditor/Markdown/MarkdownNode.swift:111-128 | the two loops of the source, with the early return and the break, compute `FindSpec` |
| `MarkdownNode.RemoveAt` | DesktopClassMarkdownEditor/DesktopClassMarkdownEditor/Markdown/MarkdownNode.swift:75 | one element fewer; the others are kept in order |
| `MarkdownNode.InsertAt` | DesktopClassMarkdownEditor/DesktopClassMarkdownEditor/Markdown/MarkdownNode.swift:89 | the inserted nodes stand at the index; the elements before it stay; the elements from it on move back by the number inserted |
| `MarkdownNode.ReplaceChildren` | DesktopClassMarkdownEditor/DesktopClassMarkdownEditor/Markdown/MarkdownNode.swift:75 | only the children of the parent at the end of the path change; every node on the path keeps its other fields, and every sibling off the path is the same |
| `MarkdownNode.NestedEditKeepsText` | DesktopClassMarkdownEditor/DesktopClassMarkdownEditor/Markdown/MarkdownNode.swift:63-69 | an edit below the top level leaves the document text unchanged, since a tag node's full text comes from its content, not from its children |
| `MarkdownNode.DeleteDescendant` | DesktopClassMarkdownEditor/DesktopClassMarkdownEditor/Markdown/MarkdownNode.swift:73-77 | exactly the found child is removed from its parent, and the rest of the tree is the same; there is no change when the identifier is absent |
| `MarkdownNode.DeleteText` | DesktopClassMarkdownEditor/DesktopClassMarkdownEditor/Markdown/MarkdownNode.swift:73-77 | deleting a top-level node cuts exactly its full text out of the document text; deleting a nested node leaves the document text as it was |
| `MarkdownNode.DuplicateNodes` | DesktopClassMarkdownEditor/DesktopClassMarkdownEditor/Markdown/MarkdownNode.swift:81-87 | a `"\n"` text node at the original's end position, then a text node holding its full text one character later, with two fresh identifiers |
| `MarkdownNode.DuplicateDescendant` | DesktopClassMarkdownEditor/DesktopClassMarkdownEditor/Markdown/MarkdownNode.swift:79-91 | those two nodes are inserted right after the found child, and the rest of the tree is the same; there is no change when the identifier is absent |
| `MarkdownNode.DuplicateText` | DesktopClassMarkdownEditor/DesktopClassMarkdownEditor/Markdown/MarkdownNode.swift:79-91 | duplicating a top-level node puts a newline and a second copy of its full text right after it in the document text; a nested node leaves the document text as it was |
| `MarkdownNode.SwapReplacement` | DesktopClassMarkdownEditor/DesktopClassMarkdownEditor/Markdown/MarkdownNode.swift:95-102 | a fresh childless node with the new tag at the same position; its content is the old full text when the tag wraps other tags, else the old content |
| `MarkdownNode.SwapTagOfNode` | DesktopClassMarkdownEditor/DesktopClassMarkdownEditor/Markdown/MarkdownNode.swift:93-107 | the replacement takes the found child's slot, so the child count is unchanged, and the rest of the tree is the same; there is no change when the identifier is absent |
| `MarkdownNode.SwapText` | DesktopClassMarkdownEditor/DesktopClassMarkdownEditor/Markdown/MarkdownNode.swift:93-107 | swapping a top-level node replaces exactly its full text by the replacement's; a nested node leaves the document text as it was |
| `MarkdownNode.SwapToCommentWrapsMarkup` | DesktopClassMarkdownEditor/DesktopClassMarkdownEditor/Markdown/MarkdownNode.swift:98-100 | after a swap to a comment, the full text is `<!--` + the old full text + `-->` |
| `MarkdownNode.SwapToHeadingKeepsContent` | DesktopClassMarkdownEditor/DesktopClassMarkdownEditor/Markdown/MarkdownNode.swift:100-101 | after a swap to a heading, the full text is the hash marks followed by the old content; the heading's newline is trimmed away |
| `MarkdownParser.CatalogWellFormed` | DesktopClassMarkdownEditor/DesktopClassMarkdownEditor/Markdown/Parser.swift:63-94 | the catalog has 25 tags, each with non-empty delimiters and a close that is either a lone newline or free of newlines |
| `MarkdownParser.FindFrom` | DesktopClassMarkdownEditor/DesktopClassMarkdownEditor/Markdown/Parser.swift:181-198 | a result is at or after `from`, and the query occurs there |
| `MarkdownParser.FindFromCharacterized` | DesktopClassMarkdownEditor/DesktopClassMarkdownEditor/Markdown/Parser.swift:181-198 | the result is the least match at or after `from` before which no blocking newline stands; None exactly when no such match exists |
| `MarkdownParser.Parser.Find` | DesktopClassMarkdownEditor/DesktopClassMarkdownEditor/Markdown/Parser.swift:181-198 | the indexed loop, with its early returns and the break at \|text\|-\|query\|, computes `FindFrom` |
| `MarkdownParser.Flush` | DesktopClassMarkdownEditor/DesktopClassMarkdownEditor/Markdown/Parser.swift:130-133 | a pending run becomes one text node at the current index, using one identifier; with no pending run nothing changes |
| `MarkdownParser.TryTag` | DesktopClassMarkdownEditor/DesktopClassMarkdownEditor/Markdown/Parser.swift:122-166 | trying one tag never moves the index back or past the end; it changes nothing when the tag does not open here; `didIncrement` records whether the index moved |
| `MarkdownParser.ScanTags` | DesktopClassMarkdownEditor/DesktopClassMarkdownEditor/Markdown/Parser.swift:122-166 | the same for the whole catalog loop, which goes on after a match with the old character and the new index |
| `MarkdownParser.Step` | DesktopClassMarkdownEditor/DesktopClassMarkdownEditor/Markdown/Parser.swift:118-171 | each outer iteration moves the index forward, which is why the scan ends |
| `MarkdownParser.UnmatchedOpen` | DesktopClassMarkdownEditor/DesktopClassMarkdownEditor/Markdown/Parser.swift:129-139 | trying one tag whose open delimiter has no close produces no tag node: the pending run is flushed, one identifier is used up by the discarded node, and the index stays |
| `ScannerProperties.UnmatchedOpensAccumulate` | DesktopClassMarkdownEditor/DesktopClassMarkdownEditor/Markdown/Parser.swift:129-171 | a whole step in which every tag that opens at the index finds no close: no tag node is made; if some tag opened, the pending run is flushed, each opening tag uses up one identifier, and the character starts the new run; if none opened, the character joins the pending run; either way the index moves on by one |
| `ScannerProperties.OpenCount` | DesktopClassMarkdownEditor/DesktopClassMarkdownEditor/Markdown/Parser.swift:122-129 | the number of tags in the list whose open delimiter starts at the index; zero exactly when none does |
| `MarkdownParser.MatchedOpen` | DesktopClassMarkdownEditor/DesktopClassMarkdownEditor/Markdown/Parser.swift:137-158 | with the close found at `c`, one tag node is appended at the open's index; it holds the text between the delimiters as its content and the parse of that content as its children; the scan resumes at `c` for a `"\n"` close and past the close otherwise |
| `MarkdownParser.Parser.constructor` | DesktopClassMarkdownEditor/DesktopClassMarkdownEditor/Markdown/Parser.swift:63-94 | the parser holds the catalog |
| `MarkdownParser.Parser.ParseDocument` | DesktopClassMarkdownEditor/DesktopClassMarkdownEditor/Markdown/Parser.swift:96-99 | `parse(_:)` builds the document from the parse of the text: its HTML, its outline and its root node; the root takes the identifier after the parse's |
| `MarkdownParser.Parser.TryTagAt` | DesktopClassMarkdownEditor/DesktopClassMarkdownEditor/Markdown/Parser.swift:122-166 | the closure handed to `forEach` computes `TryTag` |
| `MarkdownParser.Parser.OpenedAt` | DesktopClassMarkdownEditor/DesktopClassMarkdownEditor/Markdown/Parser.swift:129-161 | the closure's body, once the open delimiter matches, computes `TryTag` |
| `MarkdownParser.Parser.ParseFoundContent` | DesktopClassMarkdownEditor/DesktopClassMarkdownEditor/Markdown/Parser.swift:140-143 | a found node gets no children when its tag disallows nesting, and the parse of its content otherwise |
| `MarkdownParser.Parser.TextParsedAsNodes` | DesktopClassMarkdownEditor/DesktopClassMarkdownEditor/Markdown/Parser.swift:110-179 | the `while` loop over the index, with the catalog loop inside it, computes `Parse` |
| `ScannerProperties.ParseFaithful` | DesktopClassMarkdownEditor/DesktopClassMarkdownEditor/Markdown/Parser.swift:110-179 | over well-formed tags: the full texts of the nodes join to exactly the input; the nodes are positioned; text nodes are non-empty leaves; tag nodes carry catalog tags and the parse of their content; identifiers increase strictly in pre-order within [firstId, nextId) |
| `ScannerProperties.ParseContentAscending` | DesktopClassMarkdownEditor/DesktopClassMarkdownEditor/Markdown/Parser.swift:137-143 | the identifiers of a found node's children come after the node's own and increase strictly |
| `ScannerProperties.PositionedAt` | DesktopClassMarkdownEditor/DesktopClassMarkdownEditor/Markdown/Parser.swift:131-137 | a tag node's position is where its open delimiter starts; a text node's position is where its run ends |
| `ScannerProperties.TextNodeEnds` | DesktopClassMarkdownEditor/DesktopClassMarkdownEditor/Markdown/Parser.swift:131 | a text node before a tag node has that tag node's position, and the trailing text node has the input length |
| `ScannerProperties.NodeSpans` | DesktopClassMarkdownEditor/DesktopClassMarkdownEditor/Markdown/Parser.swift:137-157 | each node's full text stands in the input after the full texts of the nodes before it, and a tag node's open delimiter stands at its position |
| `ScannerProperties.WellShapedAt` | DesktopClassMarkdownEditor/DesktopClassMarkdownEditor/Markdown/Parser.swift:140-143 | each tag node of a parse has no children when its tag disallows nesting, and the parse of its content otherwise |
| `ScannerProperties.NothingOpensAccumulates` | DesktopClassMarkdownEditor/DesktopClassMarkdownEditor/Markdown/Parser.swift:168-171 | when no tag opens at the index, the character joins the pending run and the index moves on by one |
| `ScannerProperties.CloseTrimmed` | DesktopClassMarkdownEditor/DesktopClassMarkdownEditor/Markdown/Parser.swift:151-153 | a `"\n"` close, which the scan does not consume, trims out of the full text; any other close is kept whole |
| `ParsedDocument.BuildDocument` | DesktopClassMarkdownEditor/DesktopClassMarkdownEditor/Markdown/Parser.swift:21-55 | the one pass yields: the fixed HTML head, then the nodes' HTML in order, then the fixed tail; the outline `OutlineOf(nodes)`; and a fresh empty root text node at position 0 whose children are the nodes |
| `ParsedDocument.AppendEntry` | DesktopClassMarkdownEditor/DesktopClassMarkdownEditor/Markdown/Parser.swift:30-49 | a classified node adds its entry and any other node adds nothing; a heading becomes the last heading level |
| `ParsedDocument.EntryOf` | DesktopClassMarkdownEditor/DesktopClassMarkdownEditor/Markdown/Parser.swift:30-46 | the element the closure returns: range (position-1, length), trimmed text, indentation max(level-1, 0) for a heading and the last heading level otherwise, and the node's identifier |
| `ParsedDocument.PassStep` | DesktopClassMarkdownEditor/DesktopClassMarkdownEditor/Markdown/Parser.swift:25-26 | one more node extends the HTML by that node's HTML and the outline by that node's contribution |
| `DocumentProperties.CompactMapMembers` | DesktopClassMarkdownEditor/DesktopClassMarkdownEditor/Markdown/Parser.swift:25 | `compactMap` keeps a value exactly when the closure returned it for some element |
| `DocumentProperties.CompactMapOrder` | DesktopClassMarkdownEditor/DesktopClassMarkdownEditor/Markdown/Parser.swift:25 | `compactMap` keeps the order of the elements |
| `DocumentProperties.OutlineMembers` | DesktopClassMarkdownEditor/DesktopClassMarkdownEditor/Markdown/Parser.swift:25-50 | an element is in the outline exactly when some top-level node with an outline representation contributes it |
| `DocumentProperties.CompactMapCount` | DesktopClassMarkdownEditor/DesktopClassMarkdownEditor/Markdown/Parser.swift:25 | `compactMap` keeps exactly one value per element for which the closure returned one |
| `DocumentProperties.OutlineCount` | DesktopClassMarkdownEditor/DesktopClassMarkdownEditor/Markdown/Parser.swift:25-50 | the outline has exactly as many elements as there are classified top-level nodes |
| `DocumentProperties.OutlineOrder` | DesktopClassMarkdownEditor/DesktopClassMarkdownEditor/Markdown/Parser.swift:25-50 | outline entries come in the order of their nodes |
| `DocumentProperties.OutlineSorted` | DesktopClassMarkdownEditor/DesktopClassMarkdownEditor/Markdown/Parser.swift:32 | over positioned nodes, each range ends at or before the next one starts |
| `DocumentProperties.OutlineWithin` | DesktopClassMarkdownEditor/DesktopClassMarkdownEditor/Markdown/Parser.swift:32 | over positioned nodes, every range shifted by one character lies within the text |
| `DocumentProperties.EntryRange` | DesktopClassMarkdownEditor/DesktopClassMarkdownEditor/Markdown/Parser.swift:32 | an entry's range starts one before the node's position, and its length is the node's full text length |
| `DocumentProperties.NoHeadingLevel` | DesktopClassMarkdownEditor/DesktopClassMarkdownEditor/Markdown/Parser.swift:23 | before any heading the last heading level is 0 |
| `DocumentProperties.LastHeadingAt` | DesktopClassMarkdownEditor/DesktopClassMarkdownEditor/Markdown/Parser.swift:36-38 | after a heading and until the next one, the last heading level is that heading's level |
| `DocumentProperties.HeadingIndentation` | DesktopClassMarkdownEditor/DesktopClassMarkdownEditor/Markdown/Parser.swift:36-37 | a heading of level L is indented max(L-1, 0) |
| `DocumentProperties.CodeBlockUnderHeading` | DesktopClassMarkdownEditor/DesktopClassMarkdownEditor/Markdown/Parser.swift:34-38 | a code block is indented by the level of the nearest heading before it |
| `DocumentProperties.CodeBlockBeforeHeadings` | DesktopClassMarkdownEditor/DesktopClassMarkdownEditor/Markdown/Parser.swift:23-34 | a code block before any heading is indented 0 |
| `DocumentProperties.EntrySpans` | DesktopClassMarkdownEditor/DesktopClassMarkdownEditor/Markdown/Parser.swift:31-32 | in the text the nodes spell, the range shifted forward by one character covers exactly the node's markup |
| `DocumentProperties.CatalogOpensOffNewline` | DesktopClassMarkdownEditor/DesktopClassMarkdownEditor/Markdown/Parser.swift:63-94 | no tag of the catalog opens with a newline |
| `DocumentProperties.LeadingNewlineRanges` | DesktopClassMarkdownEditor/DesktopClassMarkdownEditor/Markdown/Parser.swift:31-32 | for a text that starts with a newline, as the code's comment expects, the range covers exactly the node's markup in the text after that newline, over a catalog none of whose tags opens with a newline |
| `DocumentProperties.ParsedTextContent` | DesktopClassMarkdownEditor/DesktopClassMarkdownEditor/Markdown/Parser.swift:57-59 | `textContent()` of a document whose root holds the parse of a text is that text again |
| `EditProperties.DeleteDescendantIds` | DesktopClassMarkdownEditor/DesktopClassMarkdownEditor/Markdown/MarkdownNode.swift:73-77 | a delete takes away exactly the identifiers of the removed subtree and adds none |
| `EditProperties.DuplicateDescendantIds` | DesktopClassMarkdownEditor/DesktopClassMarkdownEditor/Markdown/MarkdownNode.swift:79-91 | a duplicate adds exactly the two fresh identifiers and removes none |
| `EditProperties.SwapTagOfNodeIds` | DesktopClassMarkdownEditor/DesktopClassMarkdownEditor/Markdown/MarkdownNode.swift:93-107 | a swap takes away the identifiers of the replaced subtree and adds the one fresh identifier of its replacement |
| `EditProperties.DeleteKeepsIdsUnique` | DesktopClassMarkdownEditor/DesktopClassMarkdownEditor/Markdown/MarkdownNode.swift:73-77 | after a delete, identifiers that were unique and below the counter still are |
| `EditProperties.DuplicateKeepsIdsUnique` | DesktopClassMarkdownEditor/DesktopClassMarkdownEditor/Markdown/MarkdownNode.swift:79-91 | after a duplicate, identifiers that were unique and below the counter are unique and below the advanced counter |
| `EditProperties.SwapKeepsIdsUnique` | DesktopClassMarkdownEditor/DesktopClassMarkdownEditor/Markdown/MarkdownNode.swift:93-107 | after a swap, identifiers that were unique and below the counter are unique and below the advanced counter |
| `EditProperties.ParsedRootIdsUnique` | DesktopClassMarkdownEditor/DesktopClassMarkdownEditor/Markdown/Parser.swift:96-99 | the root node of a parsed document has unique identifiers, all below the identifier after the root's own |
| `Outline.RepresentationDescription` | DesktopClassMarkdownEditor/DesktopClassMarkdownEditor/Markdown/Outline.swift:27-33 | non-empty; it starts with `H` exactly for a heading |
| `Outline.RepresentationDescriptionInjective` | DesktopClassMarkdownEditor/DesktopClassMarkdownEditor/Markdown/Outline.swift:27-33 | distinct classifications print differently |
| `Outline.RawValueInjective` | DesktopClassMarkdownEditor/DesktopClassMarkdownEditor/Markdown/MarkdownTag.swift:20-24 | distinct languages have distinct raw values |
| `Outline.ElementDescriptionTruncates` | DesktopClassMarkdownEditor/DesktopClassMarkdownEditor/Markdown/Outline.swift:18-19 | characters of the text past the twentieth do not show |
| `Outline.ElementDescriptionShowsRepresentation` | DesktopClassMarkdownEditor/DesktopClassMarkdownEditor/Markdown/Outline.swift:18-19 | of two entries that agree on indentation, range and shown text, the descriptions agree only when the classifications do |
| `Outline.ElementDescriptionShowsIndentation` | DesktopClassMarkdownEditor/DesktopClassMarkdownEditor/Markdown/Outline.swift:18-19 | of two entries with non-negative indentation, the descriptions agree only when the indentations do |

`OutlineElement` is a datatype, so two elements are equal exactly when their five fields are. This matches the synthesized `Hashable` conformance (Outline.swift:10-16).

## Left out

- The views, menus, key commands, web preview, export and split layout: UI and I/O, outside the engine.
- The parse on a background operation queue and the hand-off to the main queue: concurrency.
- The documents-directory lookup for relative image sources (`FileManager`): a function parameter `resolveImage`.
- `UUID()`: identifiers are natural numbers from a counter. The parse gives unique identifiers below the counter (`ParsedRootIdsUnique`), and each edit keeps them unique when it is passed the counter (`DeleteKeepsIdsUnique`, `DuplicateKeepsIdsUnique`, `SwapKeepsIdsUnique`). A caller that passes a used identifier as the counter is outside what the model promises.
- `Language.image` and `MarkdownNode.debugDescription`: presentation and diagnostics only.
- `MarkdownDocument` (insert, swap, duplicate, delete and saving) is not part of this model. Only the node edits it calls are modelled.
- MarkdownNode.DeleteDescendant, MarkdownNode.DuplicateDescendant and MarkdownNode.SwapTagOfNode: the tree is a value, and an edit returns the new tree. The in-place mutation of the found parent's `children`, and any aliasing of `MarkdownNode` references held elsewhere, are not modelled.
- Swift `Character` is a grapheme cluster, so `"\r\n"` counts as one character in the source. Here every code point is one character. So in the source a `"\r\n"` Character is not `"\n"`: it neither closes a heading, list item or block quote nor stops the search for a single-line tag's close; in the model the `'\n'` of a CRLF pair does both.
- `Int` is unbounded here. The source's 64-bit overflow traps are not modelled, and no input of practical size reaches them.
- The negative-count trap of `String(repeating:count:)` in `heading(_:)`: heading levels are natural numbers.
- `lowercased()` is modelled on ASCII letters, the only letters the language names contain.
- `index = min(index, textAsArray.endIndex)` (Parser.swift:160, :165) is not written out. `TryTag` proves the index never passes the end, so these lines change nothing.
- A "failed bold becomes empty italics" input (`**a\nb**`) is not worked as a concrete example. The behaviour follows from `ScanTags` trying every later tag after a failed open.
