/** The recursive scanner: the fixed tag catalog, the close-delimiter search and the
    left-to-right pass that splits a text into text runs and tag nodes. */
module MarkdownParser {
  import opened Strings
  import opened MarkdownTag
  import opened MarkdownNode
  import opened ParsedDocument

  // ---------------------------------------------------------------------------
  // The catalog

  /** Parser.tags, in the order the scanner tries them. */
  const Tags: seq<Tag> := LineTags + InlineTags + BlockTags + HtmlTags

  /** Headings from the deepest level up, then the two list bullets. */
  const LineTags: seq<Tag> := [
    HeadingTag(6),
    HeadingTag(5),
    HeadingTag(4),
    HeadingTag(3),
    HeadingTag(2),
    HeadingTag(1),
    MakeTag("* ", close := Some("\n"), htmlTag := "li", options := DisallowsNewLines),
    MakeTag("- ", close := Some("\n"), htmlTag := "li", options := DisallowsNewLines)
  ]

  /** Emphasis, images and links. */
  const InlineTags: seq<Tag> := [
    Bold(),
    MakeTag("__", htmlTag := "strong", options := DisallowsNewLines),
    Italicize(),
    MakeTag("*", htmlTag := "em", options := DisallowsNewLines),
    Underline(),
    Strikethrough(),
    Image(),
    Link()
  ]

  /** Code and quotations. */
  const BlockTags: seq<Tag> := [
    CodeBlockTag(Swift),
    CodeBlockTag(ObjectiveC),
    CodeBlockTag(),
    MakeTag("`", htmlTag := "code", options := DisallowsNestedTags),
    BlockQuote()
  ]

  /** Markup written as HTML: line breaks, comments and any other angle-bracket tag. */
  const HtmlTags: seq<Tag> := [
    MakeTag("<br", close := Some("/>"), options := DisallowsNestedTags, htmlTransformer := Some(BrSelfClosing)),
    MakeTag("<br", close := Some(">"), options := DisallowsNestedTags, htmlTransformer := Some(BrSelfClosing)),
    Comment(),
    MakeTag("<", mid := "@", close := Some(">"), options := Union(DisallowsNestedTags, DisallowsNewLines),
            htmlTransformer := Some(AngleGeneric))
  ]

  /** What the scanner itself demands of a tag: it reads the first character of both
      delimiters. */
  predicate Scannable(tag: Tag) {
    |tag.openMarkdown| > 0 && |tag.closeMarkdown| > 0
  }

  predicate AllScannable(tags: seq<Tag>) {
    forall k :: 0 <= k < |tags| ==> Scannable(tags[k])
  }

  predicate NoNewlines(s: string) {
    |s| == 0 || (!IsNewline(s[0]) && NoNewlines(s[1..]))
  }

  /** What the round trip relies on as well: a close delimiter that is either a lone
      newline or keeps all its characters when trimmed of newlines. */
  predicate WellFormedTag(tag: Tag) {
    Scannable(tag) && (tag.closeMarkdown == "\n" || NoNewlines(tag.closeMarkdown))
  }

  lemma HeadingWellFormed(level: nat)
    requires level > 0
    ensures WellFormedTag(HeadingTag(level))
  {
  }

  lemma CodeBlockWellFormed(language: Language)
    ensures WellFormedTag(CodeBlockTag(language))
  {
    var close := CodeBlockTag(language).closeMarkdown;
    assert close == "```" && NoNewlines(close);
  }

  predicate AllWellFormed(tags: seq<Tag>) {
    forall k :: 0 <= k < |tags| ==> WellFormedTag(tags[k])
  }

  lemma LineTagsWellFormed()
    ensures AllWellFormed(LineTags)
  {
    HeadingWellFormed(6);
    HeadingWellFormed(5);
    HeadingWellFormed(4);
    HeadingWellFormed(3);
    HeadingWellFormed(2);
    HeadingWellFormed(1);
  }

  lemma InlineTagsWellFormed()
    ensures AllWellFormed(InlineTags)
  {
    EmphasisWellFormed();
    DecorationWellFormed();
    AppendWellFormed(InlineTags[..4], InlineTags[4..]);
    assert InlineTags == InlineTags[..4] + InlineTags[4..];
  }

  lemma EmphasisWellFormed()
    ensures AllWellFormed(InlineTags[..4])
  {
  }

  lemma DecorationWellFormed()
    ensures AllWellFormed(InlineTags[4..])
  {
    assert InlineTags[4..] == [Underline(), Strikethrough(), Image(), Link()];
    UnderlineWellFormed();
    StrikethroughWellFormed();
    ImageWellFormed();
    LinkWellFormed();
  }

  lemma UnderlineWellFormed()
    ensures WellFormedTag(Underline())
  {
    NoNewlinesChars(Underline().closeMarkdown);
  }

  lemma StrikethroughWellFormed()
    ensures WellFormedTag(Strikethrough())
  {
    NoNewlinesChars(Strikethrough().closeMarkdown);
  }

  lemma ImageWellFormed()
    ensures WellFormedTag(Image())
  {
    NoNewlinesChars(Image().closeMarkdown);
  }

  lemma LinkWellFormed()
    ensures WellFormedTag(Link())
  {
    NoNewlinesChars(Link().closeMarkdown);
  }

  /** A string none of whose characters is a newline. */
  lemma {:induction false} NoNewlinesChars(s: string)
    requires forall k :: 0 <= k < |s| ==> !IsNewline(s[k])
    ensures NoNewlines(s)
    decreases |s|
  {
    if |s| > 0 {
      assert forall k :: 0 <= k < |s| - 1 ==> s[1..][k] == s[k + 1];
      NoNewlinesChars(s[1..]);
    }
  }

  lemma BlockTagsWellFormed()
    ensures AllWellFormed(BlockTags)
  {
    CodeBlockWellFormed(Swift);
    CodeBlockWellFormed(ObjectiveC);
    CodeBlockWellFormed(Unspecified);
    FiveWellFormed(BlockTags[0], BlockTags[1], BlockTags[2], BlockTags[3], BlockTags[4]);
  }

  lemma FiveWellFormed(a: Tag, b: Tag, c: Tag, d: Tag, e: Tag)
    requires WellFormedTag(a) && WellFormedTag(b) && WellFormedTag(c) && WellFormedTag(d) && WellFormedTag(e)
    ensures AllWellFormed([a, b, c, d, e])
  {
  }

  lemma HtmlTagsWellFormed()
    ensures AllWellFormed(HtmlTags)
  {
  }

  /** Every tag of the catalog is well formed. */
  lemma CatalogWellFormed()
    ensures |Tags| == 25
    ensures AllWellFormed(Tags)
  {
    LineTagsWellFormed();
    InlineTagsWellFormed();
    BlockTagsWellFormed();
    HtmlTagsWellFormed();
    AppendWellFormed(LineTags, InlineTags);
    AppendWellFormed(LineTags + InlineTags, BlockTags);
    AppendWellFormed(LineTags + InlineTags + BlockTags, HtmlTags);
  }

  lemma AppendWellFormed(a: seq<Tag>, b: seq<Tag>)
    requires AllWellFormed(a) && AllWellFormed(b)
    ensures AllWellFormed(a + b)
  {
  }

  lemma WellFormedScannable(tags: seq<Tag>)
    requires AllWellFormed(tags)
    ensures AllScannable(tags)
  {
  }

  // ---------------------------------------------------------------------------
  // find(_:from:inString:allowingNewlines:)

  /** With newlines disallowed, a newline that does not start the query ends the search. */
  predicate Blocks(text: string, query: string, j: nat, allowingNewlines: bool)
    requires j < |text| && |query| > 0
  {
    !allowingNewlines && text[j] == '\n' && text[j] != query[0]
  }

  /** The search from index `i` on, one index at a time as the loop makes it. */
  function FindFrom(query: string, i: nat, text: string, allowingNewlines: bool): (r: Option<nat>)
    requires i < |text| ==> |query| > 0
    ensures r.Some? ==> i <= r.value && MatchesAt(text, query, r.value)
    decreases |text| - i
  {
    if i >= |text| then None
    else if text[i] == query[0] then
      if MatchesAt(text, query, i) then Some(i)
      else if i == |text| - |query| then None
      else FindFrom(query, i + 1, text, allowingNewlines)
    else if !allowingNewlines && text[i] == '\n' then None
    else if i == |text| - |query| then None
    else FindFrom(query, i + 1, text, allowingNewlines)
  }

  /** No match and no blocking newline in [from, c). */
  predicate ClearUpTo(text: string, query: string, from: nat, c: nat, allowingNewlines: bool)
    requires c <= |text| && |query| > 0
  {
    forall j :: from <= j < c ==> !MatchesAt(text, query, j) && !Blocks(text, query, j, allowingNewlines)
  }

  /** The search finds the least match at or after `from` that no blocking newline
      precedes, and finds nothing exactly when there is no such match. */
  lemma {:induction false} FindFromCharacterized(query: string, from: nat, text: string, allowingNewlines: bool)
    requires |query| > 0
    ensures FindFrom(query, from, text, allowingNewlines).Some? ==>
      var c := FindFrom(query, from, text, allowingNewlines).value;
      c + |query| <= |text| && ClearUpTo(text, query, from, c, allowingNewlines)
    ensures FindFrom(query, from, text, allowingNewlines).None? ==>
      forall c :: from <= c <= |text| - |query| && MatchesAt(text, query, c) ==>
        !ClearUpTo(text, query, from, c, allowingNewlines)
    decreases |text| - from
  {
    if from < |text| {
      if !MatchesAt(text, query, from) && !Blocks(text, query, from, allowingNewlines) && from != |text| - |query| {
        FindFromCharacterized(query, from + 1, text, allowingNewlines);
        FindFromLift(query, from, text, allowingNewlines);
      } else if MatchesAt(text, query, from) {
        assert text[from] == query[0];
      } else if Blocks(text, query, from, allowingNewlines) {
        assert text[from] != query[0];
      }
    }
  }

  /** Where the search goes on past `from`, what holds from `from + 1` on holds from
      `from` on. */
  lemma FindFromLift(query: string, from: nat, text: string, allowingNewlines: bool)
    requires |query| > 0 && from < |text|
    requires !MatchesAt(text, query, from) && !Blocks(text, query, from, allowingNewlines) && from != |text| - |query|
    requires FindFrom(query, from + 1, text, allowingNewlines).Some? ==>
      var c := FindFrom(query, from + 1, text, allowingNewlines).value;
      c + |query| <= |text| && ClearUpTo(text, query, from + 1, c, allowingNewlines)
    requires FindFrom(query, from + 1, text, allowingNewlines).None? ==>
      forall c :: from + 1 <= c <= |text| - |query| && MatchesAt(text, query, c) ==>
        !ClearUpTo(text, query, from + 1, c, allowingNewlines)
    ensures FindFrom(query, from, text, allowingNewlines).Some? ==>
      var c := FindFrom(query, from, text, allowingNewlines).value;
      c + |query| <= |text| && ClearUpTo(text, query, from, c, allowingNewlines)
    ensures FindFrom(query, from, text, allowingNewlines).None? ==>
      forall c :: from <= c <= |text| - |query| && MatchesAt(text, query, c) ==>
        !ClearUpTo(text, query, from, c, allowingNewlines)
  {
    var r := FindFrom(query, from + 1, text, allowingNewlines);
    assert FindFrom(query, from, text, allowingNewlines) == r;
    if r.None? {
      forall c | from <= c <= |text| - |query| && MatchesAt(text, query, c)
        ensures !ClearUpTo(text, query, from, c, allowingNewlines)
      {
        if c > from {
          assert !ClearUpTo(text, query, from + 1, c, allowingNewlines);
        }
      }
    }
  }

  // ---------------------------------------------------------------------------
  // textParsedAsNodes(_:), as a state machine over a catalog `tags`

  /** The scanner's local variables between two steps of the catalog loop. */
  datatype ScanState = ScanState(index: nat, nodes: seq<Node>, acc: string, nextId: nat, didIncrement: bool)

  /** The nodes of a parse and the next unused identifier. */
  datatype ParseResult = ParseResult(nodes: seq<Node>, nextId: nat)

  /** A pending text run becomes a text node positioned at the current index. */
  function Flush(s: ScanState): (r: ScanState)
    ensures r.index == s.index && r.acc == "" && r.didIncrement == s.didIncrement
    ensures |s.acc| == 0 ==> r == s
    ensures |s.acc| > 0 ==>
      r.nodes == s.nodes + [NewTextNode(s.acc, s.index, s.nextId)] && r.nextId == s.nextId + 1
  {
    if |s.acc| > 0 then
      s.(nodes := s.nodes + [NewTextNode(s.acc, s.index, s.nextId)], acc := "", nextId := s.nextId + 1)
    else s
  }

  /** The open delimiter of `tag` starts at `index`, compared as the source does: the
      current character against its first character, then the slice of the same length. */
  predicate OpensAt(text: string, chr: char, tag: Tag, index: nat)
    requires index <= |text| && |tag.openMarkdown| > 0
  {
    chr == tag.openMarkdown[0] &&
    text[index..if index + |tag.openMarkdown| <= |text| then index + |tag.openMarkdown| else |text|] == tag.openMarkdown
  }

  /** Where the scan resumes after a close delimiter found at `c`: on the newline itself
      for a close of exactly "\n", past the close delimiter otherwise. */
  function Resume(tag: Tag, c: nat): nat {
    if tag.closeMarkdown == "\n" then c else c + |tag.closeMarkdown|
  }

  /** The children of a found tag node: none for a tag that disallows nesting, else the
      parse of its content. */
  function ParseContent(tags: seq<Tag>, tag: Tag, content: string, firstId: nat): ParseResult
    requires AllScannable(tags)
    decreases |content|, 3, 1
  {
    if Has(tag.options, DisallowsNestedTags) then ParseResult([], firstId)
    else Parse(tags, content, firstId)
  }

  /** One iteration of the catalog loop: the tag is tried at the current index, with the
      character read at the start of the step. */
  function TryTag(tags: seq<Tag>, text: string, chr: char, tag: Tag, s: ScanState): (r: ScanState)
    requires AllScannable(tags) && Scannable(tag) && s.index <= |text|
    ensures s.index <= r.index <= |text|
    ensures r.didIncrement == (s.didIncrement || r.index > s.index)
    ensures !OpensAt(text, chr, tag, s.index) ==> r == s
    decreases |text|, 0, 0
  {
    if OpensAt(text, chr, tag, s.index) then
      var f := Flush(s);
      var id := f.nextId;
      var afterOpen := s.index + |tag.openMarkdown|;
      match FindFrom(tag.closeMarkdown, afterOpen, text, !Has(tag.options, DisallowsNewLines))
      case None => f.(nextId := id + 1)
      case Some(c) =>
        var content := text[afterOpen..c];
        var sub := ParseContent(tags, tag, content, id + 1);
        var node := Node(Some(tag), s.index, id, content, sub.nodes);
        ScanState(Resume(tag, c), f.nodes + [node], "", sub.nextId, true)
    else s
  }

  /** The catalog loop from tag `k` on. */
  function ScanTags(tags: seq<Tag>, text: string, chr: char, s: ScanState, k: nat): (r: ScanState)
    requires AllScannable(tags) && s.index <= |text|
    ensures s.index <= r.index <= |text|
    ensures r.didIncrement == (s.didIncrement || r.index > s.index)
    decreases |text|, 0, |tags| - k + 1
  {
    if k >= |tags| then s
    else ScanTags(tags, text, chr, TryTag(tags, text, chr, tags[k], s), k + 1)
  }

  /** One iteration of the outer loop: every tag is tried; when none matched, the
      character joins the pending text run and the index moves on by one. */
  function Step(tags: seq<Tag>, text: string, s: ScanState): (r: ScanState)
    requires AllScannable(tags) && s.index < |text|
    ensures s.index < r.index <= |text| && !r.didIncrement
    decreases |text|, 1, 0
  {
    var chr := text[s.index];
    var r := ScanTags(tags, text, chr, s.(didIncrement := false), 0);
    if r.didIncrement then r.(didIncrement := false)
    else r.(acc := r.acc + [chr], index := r.index + 1)
  }

  /** The outer loop from a state on, and the final flush of the trailing text run. */
  function Loop(tags: seq<Tag>, text: string, s: ScanState): ParseResult
    requires AllScannable(tags) && s.index <= |text|
    decreases |text|, 2, |text| - s.index
  {
    if s.index >= |text| then
      var f := Flush(s);
      ParseResult(f.nodes, f.nextId)
    else Loop(tags, text, Step(tags, text, s))
  }

  /** textParsedAsNodes(_:) over the catalog `tags`, identifiers drawn from `firstId` on. */
  function Parse(tags: seq<Tag>, text: string, firstId: nat): ParseResult
    requires AllScannable(tags)
    decreases |text|, 3, 0
  {
    Loop(tags, text, ScanState(0, [], "", firstId, false))
  }

  /** An open delimiter whose close is not found produces no tag node: the pending
      text run is still flushed, one identifier is used up by the discarded node, and the
      index stays put so that the character goes to the next text run. */
  lemma UnmatchedOpen(tags: seq<Tag>, text: string, chr: char, tag: Tag, s: ScanState)
    requires AllScannable(tags) && Scannable(tag) && s.index <= |text|
    requires OpensAt(text, chr, tag, s.index)
    requires FindFrom(tag.closeMarkdown, s.index + |tag.openMarkdown|, text, !Has(tag.options, DisallowsNewLines)).None?
    ensures TryTag(tags, text, chr, tag, s) == Flush(s).(nextId := Flush(s).nextId + 1)
  {
  }

  /** An open delimiter whose close is found at `c` appends one tag node holding the
      text in between, and the scan resumes at `c` for a "\n" close, past the close
      delimiter otherwise. */
  lemma MatchedOpen(tags: seq<Tag>, text: string, chr: char, tag: Tag, s: ScanState, c: nat,
                    content: string, sub: ParseResult)
    requires AllScannable(tags) && Scannable(tag) && s.index <= |text|
    requires OpensAt(text, chr, tag, s.index)
    requires FindFrom(tag.closeMarkdown, s.index + |tag.openMarkdown|, text, !Has(tag.options, DisallowsNewLines)) == Some(c)
    requires content == text[s.index + |tag.openMarkdown|..c]
    requires sub == ParseContent(tags, tag, content, Flush(s).nextId + 1)
    ensures TryTag(tags, text, chr, tag, s) ==
      ScanState(Resume(tag, c), Flush(s).nodes + [Node(Some(tag), s.index, Flush(s).nextId, content, sub.nodes)],
                "", sub.nextId, true)
  {
  }

  // ---------------------------------------------------------------------------
  // The parser object

  class Parser {
    /** The catalog, tried in order at every character. */
    const tags: seq<Tag>

    constructor()
      ensures tags == Tags
    {
      tags := Tags;
    }

    /** parse(_:): the top-level nodes of the text, then the document built from them.
        The root node is created last, so it takes the identifier after the parse's. */
    method ParseDocument(markdown: string, firstId: nat, resolveImage: string -> string)
      returns (doc: Document, nextId: nat)
      requires AllScannable(tags)
      ensures var p := Parse(tags, markdown, firstId);
        doc.html == HtmlHead + HtmlOfNodes(p.nodes, resolveImage) + HtmlTail &&
        doc.outline == OutlineOf(p.nodes) &&
        doc.rootNode == NewTextNode("", 0, p.nextId).(children := p.nodes) &&
        nextId == p.nextId + 1
    {
      var nodes, next := TextParsedAsNodes(markdown, firstId);
      doc := BuildDocument(nodes, next, resolveImage);
      nextId := next + 1;
    }

    /** find(_:from:inString:allowingNewlines:) as the source runs it: an indexed loop with
        an early return on a match or a blocking newline, and a break at the last index
        where the query still fits. */
    method Find(query: string, from: nat, text: string, allowingNewlines: bool) returns (r: Option<nat>)
      requires from < |text| ==> |query| > 0
      ensures r == FindFrom(query, from, text, allowingNewlines)
    {
      var index := from;
      while index < |text|
        invariant from <= index
        invariant index < |text| ==> FindFrom(query, index, text, allowingNewlines) == FindFrom(query, from, text, allowingNewlines)
        invariant index >= |text| ==> FindFrom(query, from, text, allowingNewlines).None?
        decreases |text| - index
      {
        if text[index] == query[0] {
          var end := if index + |query| <= |text| then index + |query| else |text|;
          if text[index..end] == query {
            return Some(index);
          }
        } else if !allowingNewlines && text[index] == '\n' {
          return None;
        }
        if index == |text| - |query| {
          break;
        }
        index := index + 1;
      }
      return None;
    }

    /** The closure handed to tags.forEach: tries one tag at the current index and
        returns the captured variables (index, nodes, accumulated text, didIncrement)
        as it leaves them, with the next unused identifier. */
    method TryTagAt(text: string, chr: char, tag: Tag, s: ScanState) returns (r: ScanState)
      requires AllScannable(tags) && Scannable(tag) && s.index <= |text|
      ensures r == TryTag(tags, text, chr, tag, s)
      decreases |text|, 2
    {
      r := s;
      var open := tag.openMarkdown;
      if chr == open[0] {
        var endIndex := if s.index + |open| <= |text| then s.index + |open| else |text|;
        if text[s.index..endIndex] == open {
          assert OpensAt(text, chr, tag, s.index);
          r := OpenedAt(text, chr, tag, s);
        } else {
          assert !OpensAt(text, chr, tag, s.index);
        }
      } else {
        assert !OpensAt(text, chr, tag, s.index);
      }
    }

    /** The rest of the closure once the open delimiter is there: the pending text run is
        flushed, a tag node is made, and its close delimiter is searched for. */
    method OpenedAt(text: string, chr: char, tag: Tag, s: ScanState) returns (r: ScanState)
      requires AllScannable(tags) && Scannable(tag) && s.index <= |text|
      requires OpensAt(text, chr, tag, s.index)
      ensures r == TryTag(tags, text, chr, tag, s)
      decreases |text|, 1
    {
      var index, nodes, accumulated, nextId, didIncrement := s.index, s.nodes, s.acc, s.nextId, s.didIncrement;
      if |accumulated| > 0 {
        nodes := nodes + [NewTextNode(accumulated, index, nextId)];
        nextId := nextId + 1;
        accumulated := "";
      }
      assert Flush(s) == ScanState(index, nodes, accumulated, nextId, didIncrement);
      var close := tag.closeMarkdown;
      var foundNode := NewTagNode(tag, index, nextId);
      nextId := nextId + 1;
      var afterOpen := index + |tag.openMarkdown|;
      var closeStart := Find(close, afterOpen, text, !Has(tag.options, DisallowsNewLines));
      if closeStart.Some? {
        var c := closeStart.value;
        foundNode := foundNode.(textContent := text[afterOpen..c]);
        var children, next := ParseFoundContent(tag, foundNode.textContent, nextId);
        foundNode := foundNode.(children := children);
        nextId := next;
        index := c;
        if close != "\n" {
          index := index + |close|;
        }
        didIncrement := true;
        nodes := nodes + [foundNode];
        MatchedOpen(tags, text, chr, tag, s, c, foundNode.textContent, ParseResult(children, next));
      } else {
        UnmatchedOpen(tags, text, chr, tag, s);
      }
      r := ScanState(index, nodes, accumulated, nextId, didIncrement);
    }

    /** The children of a found tag node: the parse of its content, unless the tag
        disallows nested tags. */
    method ParseFoundContent(tag: Tag, content: string, firstId: nat) returns (children: seq<Node>, nextId: nat)
      requires AllScannable(tags)
      ensures ParseResult(children, nextId) == ParseContent(tags, tag, content, firstId)
      decreases |content|, 4
    {
      children, nextId := [], firstId;
      if !Has(tag.options, DisallowsNestedTags) {
        children, nextId := TextParsedAsNodes(content, firstId);
      }
    }

    /** textParsedAsNodes(_:) as the source runs it: a while loop over the index holding a
        loop over the catalog, recursing into the content of each tag that allows nesting. */
    method TextParsedAsNodes(text: string, firstId: nat) returns (nodes: seq<Node>, nextId: nat)
      requires AllScannable(tags)
      ensures ParseResult(nodes, nextId) == Parse(tags, text, firstId)
      decreases |text|, 3
    {
      nodes := [];
      var accumulated := "";
      var index := 0;
      nextId := firstId;
      while index < |text|
        invariant index <= |text|
        invariant Loop(tags, text, ScanState(index, nodes, accumulated, nextId, false)) == Parse(tags, text, firstId)
        decreases |text| - index
      {
        var chr := text[index];
        var s0 := ScanState(index, nodes, accumulated, nextId, false);
        var state := s0;
        var k := 0;
        while k < |tags|
          invariant 0 <= k <= |tags|
          invariant s0.index <= state.index <= |text|
          invariant ScanTags(tags, text, chr, state, k) == ScanTags(tags, text, chr, s0, 0)
        {
          state := TryTagAt(text, chr, tags[k], state);
          k := k + 1;
        }
        index, nodes, accumulated, nextId := state.index, state.nodes, state.acc, state.nextId;
        if !state.didIncrement {
          accumulated := accumulated + [chr];
          index := index + 1;
        }
      }
      if |accumulated| > 0 {
        nodes := nodes + [NewTextNode(accumulated, index, nextId)];
        nextId := nextId + 1;
      }
    }
  }
}
