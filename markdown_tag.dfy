/** The tag grammar: one immutable rule per Markdown construct, with its delimiters,
    option bits, HTML rendering and outline classification. */
module MarkdownTag {
  import opened Strings

  // ---------------------------------------------------------------------------
  // Options (an OptionSet over Int)

  datatype Options = Options(rawValue: bv64)

  const DisallowsNestedTags := Options(1 << 0)
  const DisallowsNewLines := Options(1 << 1)
  const IsBlock := Options(1 << 2)
  const WrapsOtherTagsWhenSwappedIn := Options(1 << 4)
  const NoOptions := Options(0)

  /** The option set literal `[a, b]`. */
  function Union(a: Options, b: Options): (r: Options)
    ensures Has(r, a) && Has(r, b)
    ensures r.rawValue == a.rawValue | b.rawValue
  {
    Options(a.rawValue | b.rawValue)
  }

  /** OptionSet.contains: every bit of `member` is set in `options`. */
  predicate Has(options: Options, member: Options) {
    options.rawValue & member.rawValue == member.rawValue
  }

  /** The four flags are the bits 1, 2, 4 and 16, and none implies another. */
  lemma OptionBitsIndependent()
    ensures DisallowsNestedTags.rawValue == 1 && DisallowsNewLines.rawValue == 2
    ensures IsBlock.rawValue == 4 && WrapsOtherTagsWhenSwappedIn.rawValue == 16
    ensures !Has(DisallowsNestedTags, DisallowsNewLines) && !Has(DisallowsNestedTags, IsBlock)
    ensures !Has(DisallowsNestedTags, WrapsOtherTagsWhenSwappedIn)
    ensures !Has(DisallowsNewLines, DisallowsNestedTags) && !Has(DisallowsNewLines, IsBlock)
    ensures !Has(DisallowsNewLines, WrapsOtherTagsWhenSwappedIn)
    ensures !Has(IsBlock, DisallowsNestedTags) && !Has(IsBlock, DisallowsNewLines)
    ensures !Has(IsBlock, WrapsOtherTagsWhenSwappedIn)
    ensures !Has(WrapsOtherTagsWhenSwappedIn, DisallowsNestedTags)
    ensures !Has(WrapsOtherTagsWhenSwappedIn, DisallowsNewLines)
    ensures !Has(WrapsOtherTagsWhenSwappedIn, IsBlock)
    ensures forall m :: !Has(NoOptions, m) || m.rawValue == 0
  {
  }

  // ---------------------------------------------------------------------------
  // Languages and outline classification

  datatype Language = Swift | ObjectiveC | Unspecified

  function RawValue(language: Language): string {
    match language
    case Swift => "Swift"
    case ObjectiveC => "Objective-C"
    case Unspecified => "Unspecified"
  }

  /** How a top-level node appears in the outline (declared with the outline
      element in Outline.swift; kept here because tags refer to it). */
  datatype OutlineRepresentation = Heading(level: int) | CodeBlock(language: Language)

  // ---------------------------------------------------------------------------
  // Tags

  /** The custom HTML transformers of the catalog; each stands for one closure. */
  datatype Transformer =
    | LinkAnchor
    | ImageElement
    | CommentPassthrough
    | CodeBlockDiv(languageName: string)
    | BrSelfClosing
    | AngleGeneric

  datatype Tag = Tag(
    openMarkdown: string,
    midMarkdown: string,
    closeMarkdown: string,
    htmlTag: string,
    options: Options,
    outlineRepresentation: Option<OutlineRepresentation>,
    htmlTransformer: Option<Transformer>)

  /** MarkdownTag.init: the mid delimiter defaults to empty and the close delimiter to the open one. */
  function MakeTag(open: string, mid: string := "", close: Option<string> := None,
                   htmlTag: string := "", options: Options := NoOptions,
                   outlineRepresentation: Option<OutlineRepresentation> := None,
                   htmlTransformer: Option<Transformer> := None): (t: Tag)
    ensures t.openMarkdown == open && t.midMarkdown == mid
    ensures close.None? ==> t.closeMarkdown == open
    ensures close.Some? ==> t.closeMarkdown == close.value
    ensures t.htmlTag == htmlTag && t.options == options
    ensures t.outlineRepresentation == outlineRepresentation && t.htmlTransformer == htmlTransformer
  {
    Tag(open, mid, if close.Some? then close.value else open, htmlTag, options,
        outlineRepresentation, htmlTransformer)
  }

  /** The position of the first `]` in link or image content whose text holds the
      mid delimiter, or None when the transformer falls back to the verbatim markup. */
  function SplitPoint(tag: Tag, content: string): (r: Option<nat>)
    ensures r.Some? ==> r.value < |content| && content[r.value] == ']' && ']' !in content[..r.value]
    ensures r.Some? <==> Strings.Contains(content, tag.midMarkdown) && ']' in content
  {
    if Strings.Contains(content, tag.midMarkdown) then
      match FirstIndexOf(content, ']')
      case None => None
      case Some(m) => assert content[..m] == content[..m]; Some(m)
    else None
  }

  /** The part of `content` after the `]` at `m` and the mid delimiter that follows it. */
  function AfterMid(tag: Tag, content: string, m: nat): string
    requires m <= |content|
  {
    content[(if m + |tag.midMarkdown| <= |content| then m + |tag.midMarkdown| else |content|)..]
  }

  /** Applies one of the catalog's closures to the rendered content.
      `resolveImage` stands for the documents-directory URL of a relative image file. */
  function Transform(t: Transformer, tag: Tag, content: string, resolveImage: string -> string): string {
    match t
    case LinkAnchor =>
      (match SplitPoint(tag, content)
       case Some(m) => "<a href=\"" + AfterMid(tag, content, m) + "\">" + content[..m] + "</a>"
       case None => tag.openMarkdown + content + tag.closeMarkdown)
    case ImageElement =>
      (match SplitPoint(tag, content)
       case Some(m) =>
         var src := AfterMid(tag, content, m);
         var url := if HasPrefix(src, "http") then src else resolveImage(src);
         "<p><img alt=\"" + content[..m] + "\" src=\"" + url + "\"></p>"
       case None => tag.openMarkdown + content + tag.closeMarkdown)
    case CommentPassthrough => "<!--" + content + "-->"
    case CodeBlockDiv(name) =>
      "<div class=\"" + name + "\"><div class=\"language-tag\"></div><pre><code>" + content + "</code></pre></div>\n"
    case BrSelfClosing => "<br />"
    case AngleGeneric =>
      if Strings.Contains(content, tag.midMarkdown) then content
      else tag.openMarkdown + content + tag.closeMarkdown
  }

  /** generateHTML(with:): the transformer when there is one, else the element named by htmlTag. */
  function GenerateHtml(tag: Tag, text: string, resolveImage: string -> string): (r: string)
    ensures tag.htmlTransformer.None? ==>
      r == "<" + tag.htmlTag + ">" + text + "</" + tag.htmlTag + ">"
    ensures tag.htmlTransformer.Some? ==> r == Transform(tag.htmlTransformer.value, tag, text, resolveImage)
  {
    match tag.htmlTransformer
    case Some(t) => Transform(t, tag, text, resolveImage)
    case None => "<" + tag.htmlTag + ">" + text + "</" + tag.htmlTag + ">"
  }

  datatype Applied = Applied(taggedText: string, selectionAdjustment: nat)

  /** The opening (or closing) delimiter as apply(to:) inserts it: padded with newlines for block tags. */
  function Padded(tag: Tag, delimiter: string): string {
    if Has(tag.options, IsBlock) then "\n" + delimiter + "\n" else delimiter
  }

  /** apply(to:): wraps `text` in the tag's delimiters; the adjustment is where `text`
      now starts, so a selection moved by it still covers the same characters. */
  function Apply(tag: Tag, text: string): (r: Applied)
    ensures r.selectionAdjustment + |text| <= |r.taggedText|
    ensures r.taggedText[r.selectionAdjustment..r.selectionAdjustment + |text|] == text
    ensures !Has(tag.options, IsBlock) ==>
      r.selectionAdjustment == |tag.openMarkdown| &&
      r.taggedText == tag.openMarkdown + text + tag.midMarkdown + tag.closeMarkdown
    ensures Has(tag.options, IsBlock) ==>
      r.selectionAdjustment == |tag.openMarkdown| + 2 &&
      r.taggedText == "\n" + tag.openMarkdown + "\n" + text + tag.midMarkdown + "\n" + tag.closeMarkdown + "\n"
  {
    var open := Padded(tag, tag.openMarkdown);
    var close := Padded(tag, tag.closeMarkdown);
    var tagged := open + text + tag.midMarkdown + close;
    assert tagged[|open|..|open| + |text|] == text;
    Applied(tagged, |open|)
  }

  // ---------------------------------------------------------------------------
  // The static tag constructors

  function Link(): (t: Tag)
    ensures t.openMarkdown == "[" && t.midMarkdown == "](" && t.closeMarkdown == ")"
    ensures t.options == NoOptions && t.htmlTransformer == Some(LinkAnchor)
  {
    MakeTag("[", mid := "](", close := Some(")"), htmlTransformer := Some(LinkAnchor))
  }

  function Image(): (t: Tag)
    ensures t.openMarkdown == "![" && t.midMarkdown == "](" && t.closeMarkdown == ")"
    ensures t.options == DisallowsNestedTags && t.htmlTransformer == Some(ImageElement)
  {
    MakeTag("![", mid := "](", close := Some(")"), options := DisallowsNestedTags,
            htmlTransformer := Some(ImageElement))
  }

  function Bold(): (t: Tag)
    ensures t.openMarkdown == "**" && t.closeMarkdown == "**" && t.htmlTag == "strong"
    ensures t.options == DisallowsNewLines && t.htmlTransformer.None?
  {
    MakeTag("**", htmlTag := "strong", options := DisallowsNewLines)
  }

  function Italicize(): (t: Tag)
    ensures t.openMarkdown == "_" && t.closeMarkdown == "_" && t.htmlTag == "em"
    ensures t.options == DisallowsNewLines && t.htmlTransformer.None?
  {
    MakeTag("_", htmlTag := "em", options := DisallowsNewLines)
  }

  function Underline(): (t: Tag)
    ensures t.openMarkdown == "<u>" && t.closeMarkdown == "</u>" && t.htmlTag == "u"
    ensures t.options == NoOptions && t.htmlTransformer.None?
  {
    MakeTag("<u>", close := Some("</u>"), htmlTag := "u")
  }

  function Strikethrough(): (t: Tag)
    ensures t.openMarkdown == "~~" && t.closeMarkdown == "~~" && t.htmlTag == "strike"
    ensures t.options == NoOptions && t.htmlTransformer.None?
  {
    MakeTag("~~", htmlTag := "strike")
  }

  function BlockQuote(): (t: Tag)
    ensures t.openMarkdown == ">" && t.closeMarkdown == "\n" && t.htmlTag == "blockquote"
    ensures t.options == IsBlock && t.htmlTransformer.None?
  {
    MakeTag(">", close := Some("\n"), htmlTag := "blockquote", options := IsBlock)
  }

  function Comment(): (t: Tag)
    ensures t.openMarkdown == "<!--" && t.closeMarkdown == "-->"
    ensures Has(t.options, DisallowsNestedTags) && Has(t.options, WrapsOtherTagsWhenSwappedIn)
    ensures !Has(t.options, DisallowsNewLines) && !Has(t.options, IsBlock)
    ensures t.htmlTransformer == Some(CommentPassthrough) && t.outlineRepresentation.None?
  {
    MakeTag("<!--", close := Some("-->"), options := Union(DisallowsNestedTags, WrapsOtherTagsWhenSwappedIn),
            htmlTransformer := Some(CommentPassthrough))
  }

  /** heading(_:): `level` hash marks up to the end of the line, rendered as `H<level>`. */
  function HeadingTag(level: nat): (t: Tag)
    ensures |t.openMarkdown| == level && forall k :: 0 <= k < level ==> t.openMarkdown[k] == '#'
    ensures t.closeMarkdown == "\n" && t.midMarkdown == ""
    ensures t.htmlTag == "H" + IntToString(level)
    ensures t.options == NoOptions && t.htmlTransformer.None?
    ensures t.outlineRepresentation == Some(OutlineRepresentation.Heading(level))
  {
    MakeTag(seq(level, _ => '#'), close := Some("\n"), htmlTag := "H" + IntToString(level),
            outlineRepresentation := Some(OutlineRepresentation.Heading(level)))
  }

  /** The class name and open-delimiter suffix of a code block: the lowercased raw value,
      or nothing for an unspecified language. */
  function LanguageName(language: Language): string {
    if language == Unspecified then "" else Lowercased(RawValue(language))
  }

  /** codeBlock(_:): a fenced block, not parsed further, padded with newlines on insertion. */
  function CodeBlockTag(language: Language := Unspecified): (t: Tag)
    ensures t.openMarkdown == "```" + LanguageName(language) && t.closeMarkdown == "```"
    ensures Has(t.options, DisallowsNestedTags) && Has(t.options, IsBlock)
    ensures !Has(t.options, DisallowsNewLines) && !Has(t.options, WrapsOtherTagsWhenSwappedIn)
    ensures t.outlineRepresentation == Some(OutlineRepresentation.CodeBlock(language))
    ensures t.htmlTransformer == Some(CodeBlockDiv(LanguageName(language)))
  {
    MakeTag("```" + LanguageName(language), close := Some("```"),
            options := Union(DisallowsNestedTags, IsBlock),
            outlineRepresentation := Some(OutlineRepresentation.CodeBlock(language)),
            htmlTransformer := Some(CodeBlockDiv(LanguageName(language))))
  }

  // ---------------------------------------------------------------------------
  // Properties of the rendering

  /** The fence of each language: "```swift", "```objective-c" and the bare "```". */
  lemma CodeBlockFence(language: Language)
    ensures CodeBlockTag(language).openMarkdown == "```" + FenceSuffix(language)
  {
    match language
    case Swift => LowercasedSwift(RawValue(language));
    case ObjectiveC => LowercasedObjectiveC(RawValue(language));
    case Unspecified =>
  }

  /** The language names written after the fence, spelled out. */
  function FenceSuffix(language: Language): string {
    match language
    case Swift => "swift"
    case ObjectiveC => "objective-c"
    case Unspecified => ""
  }

  // The raw value is passed as a parameter so that the verifier checks the
  // lowercasing character by character instead of unfolding it on a literal.
  lemma LowercasedSwift(raw: string)
    requires raw == "Swift"
    ensures Lowercased(raw) == "swift"
  {
    var r := Lowercased(raw);
    assert LowerChar('S') == 's';
    assert forall k :: 0 < k < |raw| ==> LowerChar(raw[k]) == raw[k];
    assert forall k :: 0 <= k < |raw| ==> r[k] == "swift"[k];
  }

  lemma LowercasedObjectiveC(raw: string)
    requires raw == "Objective-C"
    ensures Lowercased(raw) == "objective-c"
  {
    var r := Lowercased(raw);
    assert LowerChar('O') == 'o' && LowerChar('C') == 'c';
    assert forall k :: 0 <= k < |raw| && k != 0 && k != 10 ==> LowerChar(raw[k]) == raw[k];
    assert forall k :: 0 <= k < |raw| ==> r[k] == "objective-c"[k];
  }

  /** A comment renders its content between `<!--` and `-->`, whatever the content. */
  lemma CommentHtml(content: string, resolveImage: string -> string)
    ensures GenerateHtml(Comment(), content, resolveImage) == "<!--" + content + "-->"
  {
  }

  /** A link whose content holds "](" becomes an anchor: the text before the first `]`
      is the anchor text and the rest after that `]` and the next character is the URL. */
  lemma {:induction false} LinkHtml(content: string, resolveImage: string -> string)
    ensures SplitPoint(Link(), content).Some? ==>
      var m := SplitPoint(Link(), content).value;
      m + 2 <= |content| &&
      GenerateHtml(Link(), content, resolveImage) ==
        "<a href=\"" + content[m + 2..] + "\">" + content[..m] + "</a>"
    ensures SplitPoint(Link(), content).None? ==>
      GenerateHtml(Link(), content, resolveImage) == "[" + content + ")"
  {
    if SplitPoint(Link(), content).Some? {
      var m := SplitPoint(Link(), content).value;
      FirstBracketBeforeMid(content, m);
    }
  }

  /** An image whose content holds "](" becomes an img element inside a paragraph; a source
      that does not start with "http" is resolved to a local file URL. */
  lemma {:induction false} ImageHtml(content: string, resolveImage: string -> string)
    ensures SplitPoint(Image(), content).Some? ==>
      var m := SplitPoint(Image(), content).value;
      m + 2 <= |content| &&
      var src := content[m + 2..];
      GenerateHtml(Image(), content, resolveImage) ==
        "<p><img alt=\"" + content[..m] + "\" src=\"" +
        (if HasPrefix(src, "http") then src else resolveImage(src)) + "\"></p>"
    ensures SplitPoint(Image(), content).None? ==>
      GenerateHtml(Image(), content, resolveImage) == "![" + content + ")"
  {
    if SplitPoint(Image(), content).Some? {
      var m := SplitPoint(Image(), content).value;
      FirstBracketBeforeMid(content, m);
    }
  }

  /** The first `]` of a text that contains "](" is at most at that occurrence, so the
      two characters after it are inside the text. */
  lemma FirstBracketBeforeMid(content: string, m: nat)
    requires Strings.Contains(content, "](")
    requires m < |content| && content[m] == ']' && ']' !in content[..m]
    ensures m + 2 <= |content|
  {
    var i: nat :| i <= |content| && MatchesAt(content, "](", i);
    assert content[i] == ']';
  }
}
