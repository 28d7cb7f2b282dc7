/** What the document promises about its outline and its text: the outline lists exactly
    the classified top-level nodes, in the order of the text and without overlap, each
    range covers its node's markup, indentation follows the headings, and the root's text
    is the parsed text again. */
module DocumentProperties {
  import opened Strings
  import opened MarkdownTag
  import opened MarkdownNode
  import opened MarkdownParser
  import opened ScannerProperties
  import opened ParsedDocument
  import opened Outline
  import opened Sequences

  // ---------------------------------------------------------------------------
  // Which entries, in which order

  /** `e` is the entry the `k`th node contributes. */
  predicate EntryAt(nodes: seq<Node>, k: nat, e: OutlineElement)
    requires k < |nodes|
  {
    Representation(nodes[k]).Some? && e == Entry(nodes[k], LastHeadingLevel(nodes, k))
  }

  /** An element is in the outline exactly when a classified top-level node contributes
      it, with the last heading level of the nodes before that one. */
  lemma OutlineMembers(nodes: seq<Node>, e: OutlineElement)
    ensures e in OutlineOf(nodes) <==> exists k :: 0 <= k < |nodes| && EntryAt(nodes, k, e)
  {
    var cs := Contributions(nodes);
    CompactMapMembers(cs, e);
    forall k | 0 <= k < |nodes|
      ensures cs[k] == Some(e) <==> EntryAt(nodes, k, e)
    {
      ContributionIsEntry(nodes, k, e);
    }
  }

  /** The outline has exactly one element per classified top-level node. */
  lemma OutlineCount(nodes: seq<Node>)
    ensures |OutlineOf(nodes)| == |set k | 0 <= k < |nodes| && Representation(nodes[k]).Some?|
  {
    var cs := Contributions(nodes);
    CompactMapCount(cs);
    assert (set k | 0 <= k < |cs| && cs[k].Some?) == (set k | 0 <= k < |nodes| && Representation(nodes[k]).Some?);
  }

  lemma ContributionIsEntry(nodes: seq<Node>, k: nat, e: OutlineElement)
    requires k < |nodes|
    ensures Contributions(nodes)[k] == Some(e) <==> EntryAt(nodes, k, e)
  {
  }

  /** The outline keeps the order of the nodes: of two entries, the earlier one comes from
      an earlier node. */
  lemma OutlineOrder(nodes: seq<Node>, a: nat, b: nat)
    requires a < b < |OutlineOf(nodes)|
    ensures exists ka, kb ::
      0 <= ka < kb < |nodes| && EntryAt(nodes, ka, OutlineOf(nodes)[a]) && EntryAt(nodes, kb, OutlineOf(nodes)[b])
  {
    var cs := Contributions(nodes);
    CompactMapOrder(cs, a, b);
    var ka, kb :| 0 <= ka < kb < |cs| && cs[ka] == Some(OutlineOf(nodes)[a]) && cs[kb] == Some(OutlineOf(nodes)[b]);
    ContributionIsEntry(nodes, ka, OutlineOf(nodes)[a]);
    ContributionIsEntry(nodes, kb, OutlineOf(nodes)[b]);
  }

  /** Over positioned nodes, every range lies within the text once the one character the
      range is shifted by is added back. */
  lemma OutlineWithin(nodes: seq<Node>, e: OutlineElement)
    requires Positioned(nodes) && e in OutlineOf(nodes)
    ensures 0 <= e.range.location + 1 <= UpperBound(e.range) + 1 <= |ConcatFullTexts(nodes)|
  {
    OutlineMembers(nodes, e);
    var k :| 0 <= k < |nodes| && EntryAt(nodes, k, e);
    EntryWithin(nodes, k);
  }

  lemma EntryWithin(nodes: seq<Node>, k: nat)
    requires Positioned(nodes) && k < |nodes| && Representation(nodes[k]).Some?
    ensures var e := Entry(nodes[k], LastHeadingLevel(nodes, k));
      0 <= e.range.location + 1 <= UpperBound(e.range) + 1 <= |ConcatFullTexts(nodes)|
  {
    EntryRange(nodes[k], LastHeadingLevel(nodes, k));
    PositionedAt(nodes, k);
    ConcatPrefixStep(nodes, k);
    ConcatGrows(nodes, k + 1, |nodes|);
    TakeAll(nodes);
  }

  /** Over positioned nodes, the ranges follow one another: each ends where the next
      one starts or before. */
  lemma OutlineSorted(nodes: seq<Node>, a: nat, b: nat)
    requires Positioned(nodes) && a < b < |OutlineOf(nodes)|
    ensures UpperBound(OutlineOf(nodes)[a].range) <= OutlineOf(nodes)[b].range.location
  {
    OutlineOrder(nodes, a, b);
    var ka, kb :| 0 <= ka < kb < |nodes| &&
      EntryAt(nodes, ka, OutlineOf(nodes)[a]) && EntryAt(nodes, kb, OutlineOf(nodes)[b]);
    EntriesOrdered(nodes, ka, kb);
  }

  /** The entry of an earlier node ends before that of a later one starts. */
  lemma EntriesOrdered(nodes: seq<Node>, ka: nat, kb: nat)
    requires Positioned(nodes) && ka < kb < |nodes|
    requires Representation(nodes[ka]).Some? && Representation(nodes[kb]).Some?
    ensures UpperBound(Entry(nodes[ka], LastHeadingLevel(nodes, ka)).range) <=
      Entry(nodes[kb], LastHeadingLevel(nodes, kb)).range.location
  {
    EntryRange(nodes[ka], LastHeadingLevel(nodes, ka));
    EntryRange(nodes[kb], LastHeadingLevel(nodes, kb));
    PositionedAt(nodes, ka);
    PositionedAt(nodes, kb);
    ConcatPrefixStep(nodes, ka);
    ConcatGrows(nodes, ka + 1, kb);
  }

  /** The text of a longer prefix of the nodes is at least as long. */
  lemma ConcatGrows(nodes: seq<Node>, j: nat, k: nat)
    requires j <= k <= |nodes|
    ensures |ConcatFullTexts(nodes[..j])| <= |ConcatFullTexts(nodes[..k])|
  {
    assert nodes[..k] == nodes[..j] + nodes[j..k];
    ConcatFullTextsAppend(nodes[..j], nodes[j..k]);
  }

  // ---------------------------------------------------------------------------
  // compactMap

  /** A value is kept by compactMap exactly when it is present somewhere. */
  lemma {:induction false} CompactMapMembers<T>(cs: seq<Option<T>>, e: T)
    ensures e in CompactMap(cs) <==> exists k :: 0 <= k < |cs| && cs[k] == Some(e)
  {
    if |cs| > 0 {
      var n := |cs| - 1;
      CompactMapMembers(cs[..n], e);
      if cs[n] == Some(e) {
        assert 0 <= n < |cs| && cs[n] == Some(e);
      }
      forall k | 0 <= k < n
        ensures cs[..n][k] == cs[k]
      {
      }
    }
  }

  /** Each kept value comes from a present one. */
  lemma {:induction false} CompactMapSource<T>(cs: seq<Option<T>>, a: nat)
    requires a < |CompactMap(cs)|
    ensures exists k :: 0 <= k < |cs| && cs[k] == Some(CompactMap(cs)[a])
  {
    var n := |cs| - 1;
    if a < |CompactMap(cs[..n])| {
      CompactMapSource(cs[..n], a);
      var k :| 0 <= k < n && cs[..n][k] == Some(CompactMap(cs[..n])[a]);
      assert cs[k] == Some(CompactMap(cs)[a]);
    } else {
      assert cs[n] == Some(CompactMap(cs)[a]);
    }
  }

  /** compactMap keeps the order: of two kept values, the earlier comes from earlier. */
  /** compactMap keeps one value per present element. */
  lemma {:induction false} CompactMapCount<T>(cs: seq<Option<T>>)
    ensures |CompactMap(cs)| == |set k | 0 <= k < |cs| && cs[k].Some?|
    decreases |cs|
  {
    if |cs| > 0 {
      var front := cs[..|cs| - 1];
      CompactMapCount(front);
      var before := set k | 0 <= k < |front| && front[k].Some?;
      var after := set k | 0 <= k < |cs| && cs[k].Some?;
      if cs[|cs| - 1].Some? {
        assert after == before + {|cs| - 1};
        assert |cs| - 1 !in before;
      } else {
        assert after == before;
      }
    }
  }

  lemma {:induction false} CompactMapOrder<T>(cs: seq<Option<T>>, a: nat, b: nat)
    requires a < b < |CompactMap(cs)|
    ensures exists ka, kb :: 0 <= ka < kb < |cs| && cs[ka] == Some(CompactMap(cs)[a]) && cs[kb] == Some(CompactMap(cs)[b])
  {
    var n := |cs| - 1;
    var prefix := cs[..n];
    if b < |CompactMap(prefix)| {
      CompactMapOrder(prefix, a, b);
      var ka, kb :| 0 <= ka < kb < n && prefix[ka] == Some(CompactMap(prefix)[a]) && prefix[kb] == Some(CompactMap(prefix)[b]);
      assert cs[ka] == Some(CompactMap(cs)[a]) && cs[kb] == Some(CompactMap(cs)[b]);
    } else {
      CompactMapSource(prefix, a);
      var ka :| 0 <= ka < n && prefix[ka] == Some(CompactMap(prefix)[a]);
      assert cs[ka] == Some(CompactMap(cs)[a]) && cs[n] == Some(CompactMap(cs)[b]);
    }
  }

  /** The range of an entry, in terms of its node. */
  lemma EntryRange(n: Node, lastHeadingLevel: int)
    requires Representation(n).Some?
    ensures Entry(n, lastHeadingLevel).range == Range(n.position - 1, |FullText(n)|)
  {
  }

  // ---------------------------------------------------------------------------
  // Indentation

  predicate IsHeading(n: Node) {
    Representation(n).Some? && Representation(n).value.Heading?
  }

  /** Without a heading among the first `i` nodes, the last heading level is 0. */
  lemma {:induction false} NoHeadingLevel(nodes: seq<Node>, i: nat)
    requires i <= |nodes|
    requires forall k :: 0 <= k < i ==> !IsHeading(nodes[k])
    ensures LastHeadingLevel(nodes, i) == 0
  {
    if i > 0 {
      NoHeadingLevel(nodes, i - 1);
    }
  }

  /** With a heading at `k` and none after it among the first `i` nodes, the last heading
      level is that heading's. */
  lemma {:induction false} LastHeadingAt(nodes: seq<Node>, i: nat, k: nat)
    requires k < i <= |nodes| && IsHeading(nodes[k])
    requires forall j :: k < j < i ==> !IsHeading(nodes[j])
    ensures LastHeadingLevel(nodes, i) == Representation(nodes[k]).value.level
  {
    if k < i - 1 {
      LastHeadingAt(nodes, i - 1, k);
    }
  }

  /** A heading entry is indented one less than its level, never below 0. */
  lemma HeadingIndentation(nodes: seq<Node>, k: nat, level: int)
    requires k < |nodes| && Representation(nodes[k]) == Some(OutlineRepresentation.Heading(level))
    ensures Entry(nodes[k], LastHeadingLevel(nodes, k)).indentationLevel == if level > 1 then level - 1 else 0
  {
  }

  /** Any other entry is indented by the level of the nearest heading before it ... */
  lemma CodeBlockUnderHeading(nodes: seq<Node>, h: nat, k: nat)
    requires h < k < |nodes| && IsHeading(nodes[h]) && Representation(nodes[k]).Some? && !IsHeading(nodes[k])
    requires forall j :: h < j < k ==> !IsHeading(nodes[j])
    ensures Entry(nodes[k], LastHeadingLevel(nodes, k)).indentationLevel == Representation(nodes[h]).value.level
  {
    LastHeadingAt(nodes, k, h);
  }

  /** ... and by 0 when no heading comes before it. */
  lemma CodeBlockBeforeHeadings(nodes: seq<Node>, k: nat)
    requires k < |nodes| && Representation(nodes[k]).Some? && !IsHeading(nodes[k])
    requires forall j :: 0 <= j < k ==> !IsHeading(nodes[j])
    ensures Entry(nodes[k], LastHeadingLevel(nodes, k)).indentationLevel == 0
  {
    NoHeadingLevel(nodes, k);
  }

  // ---------------------------------------------------------------------------
  // What a range covers

  /** The range of a classified node's entry, shifted back by one, is where its markup
      stands in the text the nodes spell out. */
  lemma EntrySpans(text: string, nodes: seq<Node>, k: nat)
    requires ConcatFullTexts(nodes) == text && Positioned(nodes) && k < |nodes|
    requires Representation(nodes[k]).Some?
    ensures var e := Entry(nodes[k], LastHeadingLevel(nodes, k));
      e.range.length == |FullText(nodes[k])| && Covers(text, e.range.location + 1, FullText(nodes[k]))
  {
    TagNodeSpans(text, nodes, k);
    EntryRange(nodes[k], LastHeadingLevel(nodes, k));
  }

  /** A tag node's markup stands at its position. */
  lemma TagNodeSpans(text: string, nodes: seq<Node>, k: nat)
    requires ConcatFullTexts(nodes) == text && Positioned(nodes) && k < |nodes|
    requires nodes[k].tag.Some?
    ensures Covers(text, nodes[k].position, FullText(nodes[k]))
    ensures HasPrefix(text[nodes[k].position..], nodes[k].tag.value.openMarkdown)
  {
    NodeSpans(text, nodes, k);
  }

  /** No tag of the catalog opens with a newline. */
  predicate OpensOffNewline(tags: seq<Tag>) {
    forall k :: 0 <= k < |tags| ==> OpensOffNewlineTag(tags[k])
  }

  predicate OpensOffNewlineTag(tag: Tag) {
    |tag.openMarkdown| > 0 && tag.openMarkdown[0] != '\n'
  }

  lemma CatalogOpensOffNewline()
    ensures OpensOffNewline(Tags)
  {
    LineTagsOpenOffNewline();
    InlineTagsOpenOffNewline();
    BlockTagsOpenOffNewline();
    HtmlTagsOpenOffNewline();
    OpensOffNewlineAppend(LineTags, InlineTags);
    OpensOffNewlineAppend(LineTags + InlineTags, BlockTags);
    OpensOffNewlineAppend(LineTags + InlineTags + BlockTags, HtmlTags);
  }

  lemma LineTagsOpenOffNewline()
    ensures OpensOffNewline(LineTags)
  {
  }

  lemma InlineTagsOpenOffNewline()
    ensures OpensOffNewline(InlineTags)
  {
  }

  lemma BlockTagsOpenOffNewline()
    ensures OpensOffNewline(BlockTags)
  {
    CodeBlockOpensOffNewline(Swift);
    CodeBlockOpensOffNewline(ObjectiveC);
    CodeBlockOpensOffNewline(Unspecified);
    FiveOpenOffNewline(BlockTags[0], BlockTags[1], BlockTags[2], BlockTags[3], BlockTags[4]);
  }

  lemma CodeBlockOpensOffNewline(language: Language)
    ensures OpensOffNewlineTag(CodeBlockTag(language))
  {
    assert CodeBlockTag(language).openMarkdown[0] == '`';
  }

  lemma FiveOpenOffNewline(a: Tag, b: Tag, c: Tag, d: Tag, e: Tag)
    requires OpensOffNewlineTag(a) && OpensOffNewlineTag(b) && OpensOffNewlineTag(c)
    requires OpensOffNewlineTag(d) && OpensOffNewlineTag(e)
    ensures OpensOffNewline([a, b, c, d, e])
  {
  }

  lemma HtmlTagsOpenOffNewline()
    ensures OpensOffNewline(HtmlTags)
  {
  }

  lemma OpensOffNewlineAppend(a: seq<Tag>, b: seq<Tag>)
    requires OpensOffNewline(a) && OpensOffNewline(b)
    ensures OpensOffNewline(a + b)
  {
  }

  /** For positioned nodes spelling out a body with a newline in front, which is what the
      range's shift allows for, the range of a node whose tag does not open with a newline
      is exactly where its markup stands in the body. */
  lemma NewlineShiftedSpans(body: string, nodes: seq<Node>, k: nat)
    requires ConcatFullTexts(nodes) == "\n" + body && Positioned(nodes) && k < |nodes|
    requires Representation(nodes[k]).Some? && OpensOffNewlineTag(nodes[k].tag.value)
    ensures var e := Entry(nodes[k], LastHeadingLevel(nodes, k));
      e.range.length == |FullText(nodes[k])| && Covers(body, e.range.location, FullText(nodes[k]))
  {
    NodeInBody(body, nodes, k);
    EntryRange(nodes[k], LastHeadingLevel(nodes, k));
  }

  /** Such a node's markup stands one character earlier in the body. */
  lemma NodeInBody(body: string, nodes: seq<Node>, k: nat)
    requires ConcatFullTexts(nodes) == "\n" + body && Positioned(nodes) && k < |nodes|
    requires nodes[k].tag.Some? && OpensOffNewlineTag(nodes[k].tag.value)
    ensures Covers(body, nodes[k].position - 1, FullText(nodes[k]))
  {
    var text := ConcatFullTexts(nodes);
    TagNodeSpans(text, nodes, k);
    NewlineShift(text, body, nodes[k].position, FullText(nodes[k]), nodes[k].tag.value.openMarkdown);
  }

  /** A piece of a text that starts with a newline, where the piece does not start with
      one, is the same piece of the text after the newline, one character earlier. */
  lemma NewlineShift(text: string, body: string, i: int, piece: string, open: string)
    requires text == "\n" + body && Covers(text, i, piece)
    requires HasPrefix(text[i..], open) && |open| > 0 && open[0] != '\n'
    ensures Covers(body, i - 1, piece)
  {
    assert text[i..][0] == open[0];
    assert body[i - 1..i - 1 + |piece|] == text[i..i + |piece|];
  }

  /** The same for the parse of such a body over a catalog none of whose tags opens with a
      newline. */
  lemma LeadingNewlineRanges(tags: seq<Tag>, body: string, firstId: nat, nodes: seq<Node>, k: nat)
    requires AllWellFormed(tags) && OpensOffNewline(tags)
    requires nodes == Parse(tags, "\n" + body, firstId).nodes
    requires k < |nodes| && Representation(nodes[k]).Some?
    ensures var e := Entry(nodes[k], LastHeadingLevel(nodes, k));
      e.range.length == |FullText(nodes[k])| && Covers(body, e.range.location, FullText(nodes[k]))
  {
    ParseFaithful(tags, "\n" + body, firstId);
    WellFormedScannable(tags);
    WellShapedAt(tags, nodes, k);
    TagOpensOffNewline(tags, nodes[k].tag.value);
    NewlineShiftedSpans(body, nodes, k);
  }

  lemma TagOpensOffNewline(tags: seq<Tag>, tag: Tag)
    requires OpensOffNewline(tags) && tag in tags
    ensures OpensOffNewlineTag(tag)
  {
  }

  // ---------------------------------------------------------------------------
  // The text

  /** textContent() of a parsed document is the text that was parsed. */
  lemma ParsedTextContent(tags: seq<Tag>, markdown: string, firstId: nat, doc: Document)
    requires AllWellFormed(tags)
    requires doc.rootNode.children == Parse(tags, markdown, firstId).nodes
    ensures TextContent(doc) == markdown
  {
    ParseFaithful(tags, markdown, firstId);
  }
}
